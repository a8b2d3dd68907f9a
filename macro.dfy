/**
 * The arithmetic of the macro snapshot endpoint (app/api/macro/route.ts): simple
 * returns of an hourly price series, the Pearson correlation of two return series
 * over their trailing overlap, the annualised realised volatility, and the clamped
 * 24-hour price drift reported as `newsMomentum`.
 *
 * Arithmetic is over the reals, and `Math.sqrt` is the parameter `sqrt` (see
 * module SquareRoot).  Where JavaScript would divide by zero the model either
 * requires a non-zero divisor (returns) or spells out which IEEE value reaches
 * the response (momentum).
 */
module Macro {
  import opened Types
  import opened RealSums
  import opened SquareRoot

  function Min(a: int, b: int): (m: int)
    ensures m <= a && m <= b && (m == a || m == b)
  {
    if a <= b then a else b
  }

  // ---------------------------------------------------------------------------
  // Simple returns

  /** Every price that `returns` divides by (all but the last) is non-zero. */
  predicate NonzeroDivisors(prices: seq<real>)
  {
    forall i :: 0 <= i < |prices| - 1 ==> prices[i] != 0.0
  }

  /** The simple return of a move from price `from` to price `to`. */
  function Return(from: real, to: real): (r: real)
    requires from != 0.0
    ensures Grow(from, r) == to
    ensures from > 0.0 ==> (r > 0.0 <==> to > from) && (r == 0.0 <==> to == from)
  {
    var r := (to - from) / from;
    assert from * r == to - from;
    if from > 0.0 then
      if to > from then DivPositive(to - from, from); r
      else if to < from then DivPositive(from - to, from); assert (from - to) / from == -r; r
      else r
    else r
  }

  /** The simple return from each price to the next. */
  function ReturnsOf(prices: seq<real>): (r: seq<real>)
    requires NonzeroDivisors(prices)
    ensures |r| == if |prices| <= 1 then 0 else |prices| - 1
    ensures forall i :: 0 <= i < |r| ==> r[i] == Return(prices[i], prices[i + 1])
  {
    seq(if |prices| <= 1 then 0 else |prices| - 1,
        i requires 0 <= i < |prices| - 1 => Return(prices[i], prices[i + 1]))
  }

  /** `returns`: one pass over the prices, appending each return. */
  method ComputeReturns(prices: seq<real>) returns (out: seq<real>)
    requires NonzeroDivisors(prices)
    ensures out == ReturnsOf(prices)
  {
    out := [];
    var i := 1;
    while i < |prices|
      invariant 1 <= i <= if |prices| == 0 then 1 else |prices|
      invariant |out| == i - 1
      invariant forall j :: 0 <= j < i - 1 ==> out[j] == Return(prices[j], prices[j + 1])
    {
      out := out + [(prices[i] - prices[i - 1]) / prices[i - 1]];
      i := i + 1;
    }
  }

  /**
   * The inverse of taking returns: the price path that starts at `start` and
   * moves by each return in turn.
   */
  function Compound(start: real, rets: seq<real>): (p: seq<real>)
    ensures |p| == |rets| + 1 && p[0] == start
    decreases |rets|
  {
    if |rets| == 0 then [start]
    else
      var q := Compound(start, rets[..|rets| - 1]);
      q + [Grow(q[|q| - 1], rets[|rets| - 1])]
  }

  /** The price after a move by the return `ret`. */
  function Grow(price: real, ret: real): real
  {
    price * (1.0 + ret)
  }

  /** Appending a price appends its return. */
  lemma ReturnsSnoc(prices: seq<real>, b: real)
    requires |prices| > 0 && NonzeroDivisors(prices + [b])
    ensures NonzeroDivisors(prices) && prices[|prices| - 1] != 0.0
    ensures ReturnsOf(prices + [b]) == ReturnsOf(prices) + [Return(prices[|prices| - 1], b)]
  {
    var p := prices + [b];
    assert NonzeroDivisors(prices) by {
      forall i | 0 <= i < |prices| - 1
        ensures prices[i] != 0.0
      {
        assert prices[i] == p[i];
      }
    }
    assert prices[|prices| - 1] == p[|prices| - 1];
    var r, r' := ReturnsOf(p), ReturnsOf(prices);
    forall i | 0 <= i < |r'|
      ensures r[i] == r'[i]
    {
      assert p[i] == prices[i] && p[i + 1] == prices[i + 1];
    }
  }

  /** Appending a return appends the price it leads to. */
  lemma CompoundSnoc(start: real, rets: seq<real>, t: real)
    ensures var q := Compound(start, rets);
      Compound(start, rets + [t]) == q + [Grow(q[|q| - 1], t)]
  {
    assert (rets + [t])[..|rets|] == rets;
  }

  /** Compounding the returns from the first price gives back the whole series. */
  lemma {:induction false} CompoundReturns(prices: seq<real>)
    requires |prices| > 0 && NonzeroDivisors(prices)
    ensures Compound(prices[0], ReturnsOf(prices)) == prices
    decreases |prices|
  {
    if |prices| > 1 {
      var front, b := prices[..|prices| - 1], prices[|prices| - 1];
      assert prices == front + [b];
      ReturnsSnoc(front, b);
      CompoundReturns(front);
      var a := front[|front| - 1];
      CompoundSnoc(prices[0], ReturnsOf(front), Return(a, b));
    }
  }

  /** A flat price series has only zero returns. */
  lemma FlatPricesZeroReturns(prices: seq<real>)
    requires NonzeroDivisors(prices) && Constant(prices)
    ensures forall i :: 0 <= i < |ReturnsOf(prices)| ==> ReturnsOf(prices)[i] == 0.0
  {
    var r := ReturnsOf(prices);
    forall i | 0 <= i < |r|
      ensures r[i] == 0.0
    {
      assert prices[i + 1] == prices[i];
    }
  }

  // ---------------------------------------------------------------------------
  // Pearson correlation

  /** The last `n` elements of `s`. */
  function Trailing(s: seq<real>, n: nat): (t: seq<real>)
    requires n <= |s|
    ensures |t| == n
    ensures forall i :: 0 <= i < n ==> t[i] == s[|s| - n + i]
  {
    s[|s| - n..]
  }

  /** The divisor of the correlation: the root of the product of the variances, or 1e-9 where that root is zero. */
  function Divisor(varA: real, varB: real, sqrt: real -> real): (d: real)
    ensures d != 0.0
  {
    if sqrt(varA * varB) == 0.0 then 0.000000001 else sqrt(varA * varB)
  }

  /** The correlation from the covariance and the two variances. */
  function CorrelationOf(cov: real, varA: real, varB: real, sqrt: real -> real): (r: real)
    ensures r == 0.0 <==> cov == 0.0
  {
    cov / Divisor(varA, varB, sqrt)
  }

  /**
   * `pearson`: the correlation of the trailing, end-aligned windows of length
   * min(|a|, |b|), from their population moments, and 0 when either series is empty.
   */
  function PearsonOf(a: seq<real>, b: seq<real>, sqrt: real -> real): (r: real)
    ensures |a| == 0 || |b| == 0 ==> r == 0.0
  {
    var n := Min(|a|, |b|);
    if n == 0 then 0.0
    else
      var x, y := Trailing(a, n), Trailing(b, n);
      CorrelationOf(Covariance(x, y), Variance(x), Variance(y), sqrt)
  }

  /** `pearson`: the five sums over the windows, then the moments and the guarded division. */
  method Pearson(a: seq<real>, b: seq<real>, sqrt: real -> real) returns (r: real)
    ensures r == PearsonOf(a, b, sqrt)
  {
    var n := Min(|a|, |b|);
    if n == 0 {
      return 0.0;
    }
    var sumA, sumB, sumAB, sumA2, sumB2 := WindowSums(a, b, n);
    var m := n as real;
    var cov := sumAB / m - (sumA / m) * (sumB / m);
    var varA := sumA2 / m - (sumA / m) * (sumA / m);
    var varB := sumB2 / m - (sumB / m) * (sumB / m);
    var root := sqrt(varA * varB);
    var denom := if root == 0.0 then 0.000000001 else root;
    r := cov / denom;
    PearsonFromSums(a, b, sqrt, n, m, sumA, sumB, sumAB, sumA2, sumB2, cov, varA, varB, denom, r);
  }

  /** The arithmetic after the loop of `pearson` computes the correlation of the windows. */
  lemma PearsonFromSums(a: seq<real>, b: seq<real>, sqrt: real -> real, n: nat, m: real,
                        sumA: real, sumB: real, sumAB: real, sumA2: real, sumB2: real,
                        cov: real, varA: real, varB: real, denom: real, r: real)
    requires 0 < n == Min(|a|, |b|) && m == n as real
    requires var x, y := Trailing(a, n), Trailing(b, n);
      sumA == Sum(x) && sumB == Sum(y) && sumAB == Dot(x, y) && sumA2 == Dot(x, x) && sumB2 == Dot(y, y)
    requires cov == sumAB / m - (sumA / m) * (sumB / m)
    requires varA == sumA2 / m - (sumA / m) * (sumA / m)
    requires varB == sumB2 / m - (sumB / m) * (sumB / m)
    requires denom == if sqrt(varA * varB) == 0.0 then 0.000000001 else sqrt(varA * varB)
    requires denom != 0.0 && r == cov / denom
    ensures r == PearsonOf(a, b, sqrt)
  {
    var x, y := Trailing(a, n), Trailing(b, n);
    MomentsFromSums(x, y, m, sumA, sumB, sumAB, sumA2, sumB2);
    assert denom == Divisor(varA, varB, sqrt);
    QuotientCongruence(cov, denom, cov, Divisor(varA, varB, sqrt));
    CorrelationCongruence(cov, varA, varB, Covariance(x, y), Variance(x), Variance(y), sqrt);
  }

  /** The loop of `pearson`: the running sums over the trailing windows of length `n`. */
  method WindowSums(a: seq<real>, b: seq<real>, n: nat) returns (sumA: real, sumB: real, sumAB: real, sumA2: real, sumB2: real)
    requires n <= |a| && n <= |b|
    ensures var x, y := Trailing(a, n), Trailing(b, n);
      sumA == Sum(x) && sumB == Sum(y) && sumAB == Dot(x, y) && sumA2 == Dot(x, x) && sumB2 == Dot(y, y)
  {
    ghost var x, y := Trailing(a, n), Trailing(b, n);
    sumA, sumB, sumAB, sumA2, sumB2 := 0.0, 0.0, 0.0, 0.0, 0.0;
    var i := 0;
    while i < n
      invariant 0 <= i <= n
      invariant sumA == Sum(x[..i]) && sumB == Sum(y[..i])
      invariant sumAB == Dot(x[..i], y[..i])
      invariant sumA2 == Dot(x[..i], x[..i]) && sumB2 == Dot(y[..i], y[..i])
    {
      var u := a[|a| - n + i];
      var v := b[|b| - n + i];
      assert u == x[i] && v == y[i];
      PrefixStep(x, y, i, u, v);
      sumA, sumB, sumAB, sumA2, sumB2 := sumA + u, sumB + v, sumAB + u * v, sumA2 + u * u, sumB2 + v * v;
      i := i + 1;
    }
    assert x[..n] == x && y[..n] == y;
  }

  /** Extending both prefixes by one element adds that element (`u` of `x`, `v` of `y`) to each fold. */
  lemma PrefixStep(x: seq<real>, y: seq<real>, i: nat, u: real, v: real)
    requires i < |x| == |y| && u == x[i] && v == y[i]
    ensures Sum(x[..i + 1]) == Sum(x[..i]) + u
    ensures Sum(y[..i + 1]) == Sum(y[..i]) + v
    ensures Dot(x[..i + 1], y[..i + 1]) == Dot(x[..i], y[..i]) + u * v
    ensures Dot(x[..i + 1], x[..i + 1]) == Dot(x[..i], x[..i]) + u * u
    ensures Dot(y[..i + 1], y[..i + 1]) == Dot(y[..i], y[..i]) + v * v
  {
    assert x[..i + 1][..i] == x[..i];
    assert y[..i + 1][..i] == y[..i];
    SumLast(x[..i + 1]);
    SumLast(y[..i + 1]);
    DotLast(x[..i + 1], y[..i + 1]);
    DotLast(x[..i + 1], x[..i + 1]);
    DotLast(y[..i + 1], y[..i + 1]);
  }

  /** The one-pass moments in terms of the five sums. */
  lemma MomentsFromSums(x: seq<real>, y: seq<real>, m: real, sumA: real, sumB: real, sumAB: real, sumA2: real, sumB2: real)
    requires |x| == |y| > 0 && m == |x| as real
    requires sumA == Sum(x) && sumB == Sum(y) && sumAB == Dot(x, y) && sumA2 == Dot(x, x) && sumB2 == Dot(y, y)
    ensures Covariance(x, y) == sumAB / m - (sumA / m) * (sumB / m)
    ensures Variance(x) == sumA2 / m - (sumA / m) * (sumA / m)
    ensures Variance(y) == sumB2 / m - (sumB / m) * (sumB / m)
  {
  }

  // Facts about the correlation as a function of the moments.

  lemma QuotientCongruence(c: real, d: real, c': real, d': real)
    ensures d != 0.0 && c == c' && d == d' ==> c / d == c' / d'
  {
  }

  lemma CorrelationCongruence(c: real, va: real, vb: real, c': real, va': real, vb': real, sqrt: real -> real)
    ensures c == c' && va == va' && vb == vb' ==> CorrelationOf(c, va, vb, sqrt) == CorrelationOf(c', va', vb', sqrt)
  {
    if c == c' && va == va' && vb == vb' {
      assert va * vb == va' * vb';
    }
  }

  lemma CorrelationOfSwapped(cov: real, varA: real, varB: real, sqrt: real -> real)
    ensures CorrelationOf(cov, varA, varB, sqrt) == CorrelationOf(cov, varB, varA, sqrt)
  {
    assert varA * varB == varB * varA;
  }

  /** Where a variance is 0 the fallback divisor is used. */
  lemma DivisorFallback(varA: real, varB: real, sqrt: real -> real)
    requires IsSqrt(sqrt) && (varA == 0.0 || varB == 0.0)
    ensures Divisor(varA, varB, sqrt) == 0.000000001
  {
    assert varA * varB == 0.0;
    SqrtZero(sqrt);
  }

  /** If c² ≤ d² for a positive d, then c/d lies in [-1, 1]. */
  lemma RatioBound(c: real, d: real, p: real)
    requires d > 0.0 && d * d == p && c * c <= p
    ensures -1.0 <= c / d <= 1.0
  {
    var lo, hi := c + d, c - d;
    DifferenceOfSquares(c, d, hi, lo);
    if hi > 0.0 {
      MulPositive(hi, lo);
    } else if lo < 0.0 {
      MulPositive(-hi, -lo);
    }
    DivBetween(c, d);
  }

  lemma DivBetween(c: real, d: real)
    requires d > 0.0 && -d <= c <= d
    ensures -1.0 <= c / d <= 1.0
  {
    var q := c / d;
    assert q * d == c;
    if q > 1.0 {
      MulPositive(q - 1.0, d);
    } else if q < -1.0 {
      MulPositive(-1.0 - q, d);
    }
  }

  /** Within the Cauchy-Schwarz bound the correlation lies in [-1, 1]. */
  lemma CorrelationOfBounded(cov: real, varA: real, varB: real, sqrt: real -> real)
    requires IsSqrt(sqrt) && varA >= 0.0 && varB >= 0.0 && cov * cov <= varA * varB
    ensures -1.0 <= CorrelationOf(cov, varA, varB, sqrt) <= 1.0
  {
    var p := varA * varB;
    NonnegProduct(varA, varB);
    var root := sqrt(p);
    assert root >= 0.0 && root * root == p;
    if root == 0.0 {
      if cov != 0.0 {
        ProductBoundPositive(p, cov, cov);
        assert false;
      }
    } else {
      RatioBound(cov, root, p);
    }
  }

  /** Perfect correlation and perfect anti-correlation. */
  lemma CorrelationOfExtremes(v: real, sqrt: real -> real)
    requires IsSqrt(sqrt) && v > 0.0
    ensures CorrelationOf(v, v, v, sqrt) == 1.0
    ensures CorrelationOf(-v, v, v, sqrt) == -1.0
  {
    SqrtOfSquare(sqrt, v);
    var d := Divisor(v, v, sqrt);
    assert d == v;
    QuotientCongruence(v, d, v, v);
    QuotientCongruence(-v, d, -v, v);
    assert v / v == 1.0 && (-v) / v == -1.0;
  }

  // Facts about `pearson`.

  lemma PearsonBounded(a: seq<real>, b: seq<real>, sqrt: real -> real)
    requires IsSqrt(sqrt)
    ensures -1.0 <= PearsonOf(a, b, sqrt) <= 1.0
  {
    var n := Min(|a|, |b|);
    if n > 0 {
      var x, y := Trailing(a, n), Trailing(b, n);
      WindowCorrelationBounded(x, y, sqrt, Covariance(x, y), Variance(x), Variance(y));
    }
  }

  /** The correlation of two windows lies in [-1, 1], with their moments named `cov`, `varA` and `varB`. */
  lemma WindowCorrelationBounded(x: seq<real>, y: seq<real>, sqrt: real -> real, cov: real, varA: real, varB: real)
    requires IsSqrt(sqrt) && |x| == |y| > 0
    requires cov == Covariance(x, y) && varA == Variance(x) && varB == Variance(y)
    ensures -1.0 <= CorrelationOf(cov, varA, varB, sqrt) <= 1.0
  {
    MomentBounds(x, y, cov, varA, varB);
    CorrelationOfBounded(cov, varA, varB, sqrt);
  }

  /** The variances are non-negative and bound the squared covariance (Cauchy-Schwarz). */
  lemma MomentBounds(x: seq<real>, y: seq<real>, cov: real, varA: real, varB: real)
    requires |x| == |y| > 0
    requires cov == Covariance(x, y) && varA == Variance(x) && varB == Variance(y)
    ensures varA >= 0.0 && varB >= 0.0 && cov * cov <= varA * varB
  {
    VarianceNonneg(x);
    VarianceNonneg(y);
    CauchySchwarz(x, y);
    SquareBoundCongruence(cov, varA, varB, Covariance(x, y), Variance(x), Variance(y));
  }

  lemma SquareBoundCongruence(c: real, va: real, vb: real, c': real, va': real, vb': real)
    ensures c == c' && va == va' && vb == vb' && c' * c' <= va' * vb' ==> c * c <= va * vb
  {
  }

  lemma PearsonSymmetric(a: seq<real>, b: seq<real>, sqrt: real -> real)
    ensures PearsonOf(a, b, sqrt) == PearsonOf(b, a, sqrt)
  {
    var n := Min(|a|, |b|);
    if n > 0 {
      var x, y := Trailing(a, n), Trailing(b, n);
      CovarianceSymmetric(x, y);
      CorrelationOfSwapped(Covariance(x, y), Variance(x), Variance(y), sqrt);
    }
  }

  /** Only the trailing windows matter: cutting both series down to them changes nothing. */
  lemma PearsonTrailingWindows(a: seq<real>, b: seq<real>, sqrt: real -> real)
    ensures var n := Min(|a|, |b|);
      PearsonOf(a, b, sqrt) == PearsonOf(Trailing(a, n), Trailing(b, n), sqrt)
  {
    var n := Min(|a|, |b|);
    var x, y := Trailing(a, n), Trailing(b, n);
    assert Trailing(x, n) == x && Trailing(y, n) == y;
  }

  /** Older history in front of the longer series is ignored. */
  lemma PearsonIgnoresOlderHistory(h: seq<real>, a: seq<real>, b: seq<real>, sqrt: real -> real)
    requires |a| >= |b|
    ensures PearsonOf(h + a, b, sqrt) == PearsonOf(a, b, sqrt)
  {
    var n := |b|;
    assert Trailing(h + a, n) == Trailing(a, n);
  }

  /** With a constant window the covariance is 0, the fallback divisor is used, and the correlation is 0. */
  lemma PearsonOfConstantWindow(a: seq<real>, b: seq<real>, sqrt: real -> real)
    requires IsSqrt(sqrt) && Min(|a|, |b|) > 0
    requires Constant(Trailing(a, Min(|a|, |b|))) || Constant(Trailing(b, Min(|a|, |b|)))
    ensures var x, y := Trailing(a, Min(|a|, |b|)), Trailing(b, Min(|a|, |b|));
      Divisor(Variance(x), Variance(y), sqrt) == 0.000000001
    ensures PearsonOf(a, b, sqrt) == 0.0
  {
    var n := Min(|a|, |b|);
    var x, y := Trailing(a, n), Trailing(b, n);
    VarianceZeroIffConstant(x);
    VarianceZeroIffConstant(y);
    DivisorFallback(Variance(x), Variance(y), sqrt);
    if Constant(x) {
      ZeroVarianceCovariance(x, y);
    } else {
      ZeroVarianceCovariance(y, x);
      CovarianceSymmetric(x, y);
    }
  }

  /** A non-constant series is perfectly correlated with itself. */
  lemma PearsonSelf(a: seq<real>, sqrt: real -> real)
    requires IsSqrt(sqrt) && |a| > 0 && !Constant(a)
    ensures PearsonOf(a, a, sqrt) == 1.0
  {
    assert Trailing(a, |a|) == a;
    VarianceZeroIffConstant(a);
    CorrelationOfExtremes(Variance(a), sqrt);
  }

  /** ... and perfectly anti-correlated with its negation. */
  lemma PearsonNegated(a: seq<real>, sqrt: real -> real)
    requires IsSqrt(sqrt) && |a| > 0 && !Constant(a)
    ensures PearsonOf(a, Scale(-1.0, a), sqrt) == -1.0
  {
    var b := Scale(-1.0, a);
    assert Trailing(a, |a|) == a && Trailing(b, |b|) == b;
    VarianceZeroIffConstant(a);
    NegatedMoments(a);
    var v := Variance(a);
    CorrelationOfExtremes(v, sqrt);
    CorrelationCongruence(Covariance(a, b), v, Variance(b), -v, v, v, sqrt);
  }

  // ---------------------------------------------------------------------------
  // Realised volatility

  /** An hourly variance, as a daily standard deviation annualised in percent. */
  function Annualised(varr: real, sqrt: real -> real): real
  {
    sqrt(varr * 24.0) * sqrt(365.0) * 100.0
  }

  /** The annualisation of a variance is never negative, and zero only for a zero variance. */
  lemma AnnualisedNonneg(varr: real, sqrt: real -> real)
    requires IsSqrt(sqrt) && varr >= 0.0
    ensures Annualised(varr, sqrt) >= 0.0
    ensures Annualised(varr, sqrt) == 0.0 <==> varr == 0.0
  {
    AnnualisedSign(varr, sqrt(varr * 24.0), sqrt(365.0), sqrt);
  }

  /** The sign of the annualisation, with the daily root `s` and the root `t` of 365 named. */
  lemma AnnualisedSign(varr: real, s: real, t: real, sqrt: real -> real)
    requires s == sqrt(varr * 24.0) && t == sqrt(365.0)
    ensures IsSqrt(sqrt) && varr >= 0.0 ==> s * t * 100.0 >= 0.0 && (s * t * 100.0 == 0.0 <==> varr == 0.0)
  {
    if IsSqrt(sqrt) && varr >= 0.0 {
      SqrtZeroIff(sqrt, varr * 24.0);
      SqrtZeroIff(sqrt, 365.0);
      NonnegProduct(s, t);
      NonnegProduct(s * t, 100.0);
      if varr > 0.0 {
        MulPositive(s, t);
        MulPositive(s * t, 100.0);
      }
    }
  }

  /**
   * `realizedVolatility`: the annualised population variance of the hourly
   * returns, computed as a two-pass mean of squared deviations; 0 for no returns
   * and never negative.
   */
  function RealizedVolatility(rets: seq<real>, sqrt: real -> real): (v: real)
    ensures |rets| == 0 ==> v == 0.0
    ensures IsSqrt(sqrt) ==> v >= 0.0
  {
    if |rets| == 0 then 0.0
    else
      var n := |rets| as real;
      var mean := Sum(rets) / n;
      VarianceIsMeanSquaredDeviation(rets);
      VarianceNonneg(rets);
      AnnualisedSign(Variance(rets), sqrt(Variance(rets) * 24.0), sqrt(365.0), sqrt);
      Annualised(SumSqDev(rets, mean) / n, sqrt)
  }

  lemma AnnualisedScale(k: real, varr: real, sqrt: real -> real)
    requires IsSqrt(sqrt) && varr >= 0.0
    ensures Annualised(k * k * varr, sqrt) == Abs(k) * Annualised(varr, sqrt)
  {
    var w := varr * 24.0;
    assert k * k * varr * 24.0 == k * k * w;
    SqrtCongruence(sqrt, k * k * varr * 24.0, k * k * w);
    SqrtScale(sqrt, k, w);
    ProductShift(Abs(k), sqrt(k * k * w), sqrt(w), sqrt(365.0));
  }

  lemma SqrtCongruence(sqrt: real -> real, p: real, q: real)
    ensures p == q ==> sqrt(p) == sqrt(q)
  {
  }

  lemma ProductShift(a: real, s: real, t: real, u: real)
    ensures s == a * t ==> s * u * 100.0 == a * (t * u * 100.0)
  {
  }

  /** It is the one-pass variance that `pearson` uses, annualised. */
  lemma VolatilityFromVariance(rets: seq<real>, sqrt: real -> real)
    requires |rets| > 0
    ensures Variance(rets) >= 0.0
    ensures RealizedVolatility(rets, sqrt) == Annualised(Variance(rets), sqrt)
  {
    VarianceIsMeanSquaredDeviation(rets);
    VarianceNonneg(rets);
  }

  /** Zero exactly when there are no returns or they are all equal. */
  lemma VolatilityZeroIffConstant(rets: seq<real>, sqrt: real -> real)
    requires IsSqrt(sqrt)
    ensures RealizedVolatility(rets, sqrt) == 0.0 <==> Constant(rets)
  {
    if |rets| > 0 {
      VolatilityFromVariance(rets, sqrt);
      VarianceZeroIffConstant(rets);
      AnnualisedNonneg(Variance(rets), sqrt);
    }
  }

  /** Scaling every return by k scales the volatility by |k|. */
  lemma VolatilityScale(k: real, rets: seq<real>, sqrt: real -> real)
    requires IsSqrt(sqrt)
    ensures RealizedVolatility(Scale(k, rets), sqrt) == Abs(k) * RealizedVolatility(rets, sqrt)
  {
    if |rets| > 0 {
      ScaledVolatilities(k, rets, sqrt, RealizedVolatility(Scale(k, rets), sqrt), RealizedVolatility(rets, sqrt));
    }
  }

  /** `VolatilityScale` for non-empty returns, with the two volatilities named `a` (scaled) and `b`. */
  lemma ScaledVolatilities(k: real, rets: seq<real>, sqrt: real -> real, a: real, b: real)
    requires IsSqrt(sqrt) && |rets| > 0
    requires a == RealizedVolatility(Scale(k, rets), sqrt) && b == RealizedVolatility(rets, sqrt)
    ensures a == Abs(k) * b
  {
    VolatilityFromVariance(rets, sqrt);
    VolatilityFromVariance(Scale(k, rets), sqrt);
    VarianceScale(k, rets);
    AnnualisedScaleOf(k, Variance(Scale(k, rets)), Variance(rets), a, b, sqrt);
  }

  lemma AnnualisedScaleOf(k: real, vs: real, v: real, a: real, b: real, sqrt: real -> real)
    requires IsSqrt(sqrt) && v >= 0.0
    requires vs == k * k * v && a == Annualised(vs, sqrt) && b == Annualised(v, sqrt)
    ensures a == Abs(k) * b
  {
    AnnualisedScale(k, v, sqrt);
  }

  // ---------------------------------------------------------------------------
  // News momentum

  /** `Math.max(-1, Math.min(1, x))`. */
  function Clamp(x: real): (r: real)
    ensures -1.0 <= r <= 1.0
    ensures -1.0 <= x <= 1.0 ==> r == x
    ensures x > 1.0 ==> r == 1.0
    ensures x < -1.0 ==> r == -1.0
  {
    if x > 1.0 then 1.0 else if x < -1.0 then -1.0 else x
  }

  /** The price the drift is measured from: 24 samples before the last, or the first. */
  function ReferenceIndex(len: nat): (i: nat)
    requires len > 0
    ensures i < len
    ensures len >= 25 ==> i == len - 25
    ensures len < 25 ==> i == 0
  {
    if len >= 25 then len - 25 else 0
  }

  /**
   * The momentum proxy: ten times the relative drift of the last price from the
   * reference price, clamped to [-1, 1].  `None` stands for the NaN that the clamp
   * passes through to the response: an empty series, or a zero reference price
   * with a zero last price; a zero reference price with
   * a non-zero last price gives ±Infinity, which the clamp turns into ±1.
   */
  function Momentum(prices: seq<real>): (m: Option<real>)
    ensures m.Some? ==> -1.0 <= m.value <= 1.0
    ensures m.None? <==> |prices| == 0 || (prices[ReferenceIndex(|prices|)] == 0.0 && prices[|prices| - 1] == 0.0)
  {
    if |prices| == 0 then None
    else
      var last := prices[|prices| - 1];
      var prev := prices[ReferenceIndex(|prices|)];
      if prev != 0.0 then Some(Clamp(Return(prev, last) * 10.0))
      else if last > 0.0 then Some(1.0)
      else if last < 0.0 then Some(-1.0)
      else None
  }

  /** With positive prices the momentum has the sign of the drift, and is 0 exactly when the price is back where it was. */
  lemma MomentumSign(prices: seq<real>)
    requires |prices| > 0 && prices[ReferenceIndex(|prices|)] > 0.0
    ensures Momentum(prices).Some?
    ensures Momentum(prices).value > 0.0 <==> prices[|prices| - 1] > prices[ReferenceIndex(|prices|)]
    ensures Momentum(prices).value == 0.0 <==> prices[|prices| - 1] == prices[ReferenceIndex(|prices|)]
  {
  }

  /** A flat, non-zero price series has zero momentum. */
  lemma FlatMomentumZero(prices: seq<real>)
    requires |prices| > 0 && Constant(prices) && prices[0] != 0.0
    ensures Momentum(prices) == Some(0.0)
  {
    var last, prev := prices[|prices| - 1], prices[ReferenceIndex(|prices|)];
    assert last == prices[0] && prev == prices[0];
    assert Return(prev, last) == 0.0;
  }

  // ---------------------------------------------------------------------------
  // The snapshot

  datatype MacroSnapshot = MacroSnapshot(
    btcEthCorrelation: real,
    btcDominance: real,
    realizedVolatility: real,
    newsMomentum: Option<real>)

  /**
   * The numbers of the `GET` response, from the already extracted Bitcoin market
   * share (`None` when the field is missing) and the two hourly price series.
   */
  function Snapshot(btcShare: Option<real>, ethPrices: seq<real>, btcPrices: seq<real>, sqrt: real -> real): (s: MacroSnapshot)
    requires IsSqrt(sqrt) && NonzeroDivisors(ethPrices) && NonzeroDivisors(btcPrices)
    ensures s.btcEthCorrelation == PearsonOf(ReturnsOf(ethPrices), ReturnsOf(btcPrices), sqrt)
    ensures -1.0 <= s.btcEthCorrelation <= 1.0
    ensures s.realizedVolatility == RealizedVolatility(ReturnsOf(ethPrices), sqrt)
    ensures s.realizedVolatility >= 0.0
    ensures s.btcDominance == if btcShare.Some? then btcShare.value else 0.0
    ensures s.newsMomentum == Momentum(ethPrices)
  {
    var ethRets := ReturnsOf(ethPrices);
    var btcRets := ReturnsOf(btcPrices);
    PearsonBounded(ethRets, btcRets, sqrt);
    MacroSnapshot(
      PearsonOf(ethRets, btcRets, sqrt),
      if btcShare.Some? then btcShare.value else 0.0,
      RealizedVolatility(ethRets, sqrt),
      Momentum(ethPrices))
  }
}
