/**
 * Finite sums over sequences of reals, the population moments built from them,
 * and the facts about those moments: the one-pass moments (mean of products
 * minus product of means) agree with the two-pass ones (mean of products of
 * deviations), the variance is non-negative and vanishes exactly on constant
 * sequences, covariance is symmetric and scales with its arguments, and the
 * Cauchy-Schwarz inequality holds.
 *
 * There are two folds, the sum and the sum of pairwise products, each a left
 * fold from the first element like `Array.prototype.reduce`.  Each is written
 * once as a recursive `...Fold` function and used through a plain function of
 * the same name without the suffix.  Deviations, scalings and linear
 * combinations are element-wise sequences, so every product inside a fold is a
 * product of two elements.
 *
 * The proofs keep sequences and arithmetic apart.  The `...Last` lemmas unfold
 * one step; the `...Step` and `...Algebra` lemmas do the arithmetic over plain
 * numbers and are stated as implications, so that a proof about sequences only
 * has to match their premises: each names every quantity of one induction
 * step, with primed names for the values before the step.  The longer
 * inductions are split into the lemma itself (the empty case) and a `...Last`
 * companion for the non-empty case; the short ones (`DotSymmetric`, the
 * `DotSelf...` lemmas and `ConstantSum`) are proved in one piece.
 */
module RealSums {

  // ---------------------------------------------------------------------------
  // Folds and element-wise sequences

  function SumFold(s: seq<real>): real
    decreases |s|
  {
    if |s| == 0 then 0.0 else SumFold(s[..|s| - 1]) + s[|s| - 1]
  }

  function DotFold(x: seq<real>, y: seq<real>): real
    requires |x| == |y|
    decreases |x|
  {
    if |x| == 0 then 0.0 else DotFold(x[..|x| - 1], y[..|y| - 1]) + x[|x| - 1] * y[|y| - 1]
  }

  /** The sum of the elements. */
  function Sum(s: seq<real>): real
  {
    SumFold(s)
  }

  /** The sum of the pairwise products of two equally long sequences. */
  function Dot(x: seq<real>, y: seq<real>): real
    requires |x| == |y|
  {
    DotFold(x, y)
  }

  /** Every element multiplied by `k`. */
  function Scale(k: real, s: seq<real>): (r: seq<real>)
    ensures |r| == |s|
    ensures forall i :: 0 <= i < |s| ==> r[i] == k * s[i]
  {
    seq(|s|, i requires 0 <= i < |s| => k * s[i])
  }

  /** The deviation of every element from `m`. */
  function Deviations(s: seq<real>, m: real): (r: seq<real>)
    ensures |r| == |s|
    ensures forall i :: 0 <= i < |s| ==> r[i] == s[i] - m
  {
    seq(|s|, i requires 0 <= i < |s| => s[i] - m)
  }

  /** The element-wise sum. */
  function Add(x: seq<real>, y: seq<real>): (r: seq<real>)
    requires |x| == |y|
    ensures |r| == |x|
    ensures forall i :: 0 <= i < |x| ==> r[i] == x[i] + y[i]
  {
    seq(|x|, i requires 0 <= i < |x| => x[i] + y[i])
  }

  // ---------------------------------------------------------------------------
  // Moments

  function Mean(s: seq<real>): real
    requires |s| > 0
  {
    Sum(s) / |s| as real
  }

  /** Population covariance in one-pass form: the mean of the products minus the product of the means. */
  function Covariance(x: seq<real>, y: seq<real>): real
    requires |x| == |y| > 0
  {
    Dot(x, y) / |x| as real - Mean(x) * Mean(y)
  }

  /** Population variance in one-pass form. */
  function Variance(x: seq<real>): real
    requires |x| > 0
  {
    Covariance(x, x)
  }

  /** The sum of the products of the deviations of `x` from `a` and of `y` from `b`. */
  function CoDeviation(x: seq<real>, y: seq<real>, a: real, b: real): real
    requires |x| == |y|
  {
    Dot(Deviations(x, a), Deviations(y, b))
  }

  /** The sum of the squared deviations of the elements of `s` from `m`. */
  function SumSqDev(s: seq<real>, m: real): real
  {
    CoDeviation(s, s, m, m)
  }

  ghost predicate Constant(s: seq<real>)
  {
    forall i, j :: 0 <= i < |s| && 0 <= j < |s| ==> s[i] == s[j]
  }

  // ---------------------------------------------------------------------------
  // One step of each fold

  lemma SumLast(s: seq<real>)
    requires |s| > 0
    ensures Sum(s) == Sum(s[..|s| - 1]) + s[|s| - 1]
  {
  }

  lemma DotLast(x: seq<real>, y: seq<real>)
    requires |x| == |y| > 0
    ensures Dot(x, y) == Dot(x[..|x| - 1], y[..|y| - 1]) + x[|x| - 1] * y[|y| - 1]
  {
  }

  lemma CoDeviationLast(x: seq<real>, y: seq<real>, a: real, b: real)
    requires |x| == |y| > 0
    ensures CoDeviation(x, y, a, b)
         == CoDeviation(x[..|x| - 1], y[..|y| - 1], a, b) + Deviations(x, a)[|x| - 1] * Deviations(y, b)[|y| - 1]
  {
    DeviationsLast(x, a);
    DeviationsLast(y, b);
    DotLast(Deviations(x, a), Deviations(y, b));
  }

  lemma LengthLast(s: seq<real>)
    requires |s| > 0
    ensures |s[..|s| - 1]| as real == |s| as real - 1.0
  {
  }

  lemma ScaleLast(k: real, s: seq<real>)
    requires |s| > 0
    ensures Scale(k, s)[..|s| - 1] == Scale(k, s[..|s| - 1])
  {
    var a, b := Scale(k, s)[..|s| - 1], Scale(k, s[..|s| - 1]);
    forall i | 0 <= i < |a| ensures a[i] == b[i] {
    }
  }

  lemma DeviationsLast(s: seq<real>, m: real)
    requires |s| > 0
    ensures Deviations(s, m)[..|s| - 1] == Deviations(s[..|s| - 1], m)
  {
    var a, b := Deviations(s, m)[..|s| - 1], Deviations(s[..|s| - 1], m);
    forall i | 0 <= i < |a| ensures a[i] == b[i] {
    }
  }

  lemma AddLast(x: seq<real>, y: seq<real>)
    requires |x| == |y| > 0
    ensures Add(x, y)[..|x| - 1] == Add(x[..|x| - 1], y[..|y| - 1])
  {
    var a, b := Add(x, y)[..|x| - 1], Add(x[..|x| - 1], y[..|y| - 1]);
    forall i | 0 <= i < |a| ensures a[i] == b[i] {
    }
  }

  // ---------------------------------------------------------------------------
  // Arithmetic over plain numbers

  lemma SquareNonneg(t: real)
    ensures t * t >= 0.0
  {
    if t < 0.0 {
      assert t * t == (-t) * (-t);
    }
  }

  /**
   * A total bounded below by a product of two factors of the same strict sign is
   * positive.  The factors are separate parameters even where a caller passes the
   * same value twice: a strict bound on a square is not something the solver
   * can use once integers are in scope.
   */
  lemma ProductBoundPositive(total: real, a: real, b: real)
    requires total >= a * b && ((a > 0.0 && b > 0.0) || (a < 0.0 && b < 0.0))
    ensures total > 0.0
  {
  }

  lemma MulPositive(a: real, b: real)
    requires a > 0.0 && b > 0.0
    ensures a * b > 0.0
  {
  }

  lemma DivPositive(a: real, n: real)
    requires a > 0.0 && n > 0.0
    ensures a / n > 0.0
  {
    assert a / n * n == a;
  }

  lemma DivNonneg(a: real, n: real)
    requires a >= 0.0 && n > 0.0
    ensures a / n >= 0.0
  {
    if a > 0.0 {
      DivPositive(a, n);
    }
  }

  /** A positive factor does not change the sign. */
  lemma DivOfMultiple(n: real, c: real, s: real)
    requires n > 0.0
    ensures s == n * c ==> s / n == c
  {
  }

  lemma PositiveFactor(n: real, z: real)
    requires n > 0.0 && n * z >= 0.0
    ensures z >= 0.0
  {
  }

  lemma DivScale(k: real, a: real, n: real)
    requires n > 0.0
    ensures (k * a) / n == k * (a / n)
  {
  }

  /** One step of `SumScale`: adding `k * a` to `k * t'` gives `k * (t' + a)`. */
  lemma ScaleStep(k: real, r: real, r': real, t: real, t': real, a: real, c: real)
    ensures c == k * a && r == r' + c && r' == k * t' && t == t' + a ==> r == k * t
  {
  }

  /** One step of `DotScale`: adding `(k * a) * b` to `k * t'` gives `k * (t' + a * b)`. */
  lemma DotScaleStep(k: real, r: real, r': real, t: real, t': real, a: real, b: real, c: real)
    ensures c == k * a && r == r' + c * b && r' == k * t' && t == t' + a * b ==> r == k * t
  {
  }

  /** One step of `DotAdd`: the product with `u + v` splits into the products with `u` and with `v`. */
  lemma AddStep(r: real, r': real, s1: real, s1': real, s2: real, s2': real, c: real, u: real, v: real, z: real)
    ensures c == u + v && r == r' + c * z && s1 == s1' + u * z && s2 == s2' + v * z && r' == s1' + s2'
        ==> r == s1 + s2
  {
  }

  /**
   * One step of `CoDeviationExpand`: the sum `e` of products of deviations from
   * `a` and `b` stays equal to `d - a * sy - b * sx + n * a * b` when the pair
   * `(u, v)` is added to the sum of products `d`, the sums `sx` and `sy` and the
   * count `n`.
   */
  lemma CoDeviationStep(a: real, b: real, e: real, e': real, d: real, d': real, sx: real, sx': real,
                        sy: real, sy': real, n: real, n': real, u: real, v: real, su: real, sv: real)
    ensures su == u - a && sv == v - b && e' == d' - a * sy' - b * sx' + n' * a * b
         && e == e' + su * sv && d == d' + u * v && sx == sx' + u && sy == sy' + v && n == n' + 1.0
        ==> e == d - a * sy - b * sx + n * a * b
  {
  }

  /** The one-pass covariance over `n` elements is the mean of the co-deviations from the means. */
  lemma CoDeviationAlgebra(n: real, sx: real, sy: real, d: real, mx: real, my: real, e: real, c: real)
    ensures n > 0.0 && mx == sx / n && my == sy / n && c == d / n - mx * my
         && e == d - mx * sy - my * sx + n * mx * my
        ==> c == e / n
  {
    if n > 0.0 && mx == sx / n && my == sy / n {
      assert sx == n * mx && sy == n * my;
    }
  }

  lemma ProductAlgebra(p: real, q: real, r: real, s: real, d: real)
    ensures r == p * s && s == q * d ==> r == p * q * d
  {
  }

  /** The expansion of a sum of squares of a combination, read off the bilinear sums. */
  lemma FormAlgebra(p: real, q: real, w: real, aa: real, ab: real, bb: real, sxx: real, sxy: real, syy: real)
    ensures w >= 0.0 && w == aa + 2.0 * ab + bb && aa == p * p * sxx && ab == p * q * sxy && bb == q * q * syy
        ==> p * p * sxx + q * q * syy + 2.0 * p * q * sxy >= 0.0
  {
  }

  lemma QuadFormAlgebra(n: real, sxx: real, syy: real, sxy: real, vx: real, vy: real, cxy: real, p: real, q: real)
    requires n > 0.0
    ensures p * p * sxx + q * q * syy + 2.0 * p * q * sxy >= 0.0 && vx == sxx / n && vy == syy / n && cxy == sxy / n
        ==> p * p * vx + q * q * vy + 2.0 * p * q * cxy >= 0.0
  {
    if p * p * sxx + q * q * syy + 2.0 * p * q * sxy >= 0.0 && vx == sxx / n && vy == syy / n && cxy == sxy / n {
      assert p * p * vx + q * q * vy + 2.0 * p * q * cxy == (p * p * sxx + q * q * syy + 2.0 * p * q * sxy) / n;
      DivNonneg(p * p * sxx + q * q * syy + 2.0 * p * q * sxy, n);
    }
  }

  lemma ZeroVarianceAlgebra(vx: real, vy: real, cxy: real, p: real)
    requires vx == 0.0 && cxy != 0.0 && p == -(vy + 1.0) / (2.0 * cxy)
    ensures p * p * vx + 1.0 * 1.0 * vy + 2.0 * p * 1.0 * cxy == -1.0
  {
    assert 2.0 * p * cxy == -(vy + 1.0);
  }

  lemma CauchySchwarzAlgebra(vx: real, vy: real, cxy: real, q: real)
    requires vx > 0.0 && q == -vx
    ensures cxy * cxy * vx + q * q * vy + 2.0 * cxy * q * cxy >= 0.0 ==> cxy * cxy <= vx * vy
  {
    assert cxy * cxy * vx + q * q * vy + 2.0 * cxy * q * cxy == vx * (vx * vy - cxy * cxy);
    if cxy * cxy * vx + q * q * vy + 2.0 * cxy * q * cxy >= 0.0 {
      PositiveFactor(vx, vx * vy - cxy * cxy);
    }
  }

  lemma CovarianceScaleAlgebra(k: real, d: real, n: real, mx: real, my: real)
    requires n > 0.0
    ensures (k * d) / n - (k * mx) * my == k * (d / n - mx * my)
  {
    DivScale(k, d, n);
  }
  lemma ScaleTwiceAlgebra(k: real, vs: real, c: real, c': real, v': real, v: real)
    ensures vs == k * c && c == c' && c' == k * v' && v' == v ==> vs == k * k * v
  {
  }


  // ---------------------------------------------------------------------------
  // Linearity and symmetry of the sums

  lemma {:induction false} SumScale(k: real, s: seq<real>)
    ensures Sum(Scale(k, s)) == k * Sum(s)
    decreases |s|, 1
  {
    if |s| > 0 {
      SumScaleLast(k, s);
    }
  }

  lemma {:induction false} SumScaleLast(k: real, s: seq<real>)
    requires |s| > 0
    ensures Sum(Scale(k, s)) == k * Sum(s)
    decreases |s|, 0
  {
    ScaleLast(k, s);
    SumLast(Scale(k, s));
    SumLast(s);
    SumScale(k, s[..|s| - 1]);
    ScaleStep(k, Sum(Scale(k, s)), Sum(Scale(k, s[..|s| - 1])), Sum(s), Sum(s[..|s| - 1]), s[|s| - 1],
              Scale(k, s)[|s| - 1]);
  }

  lemma {:induction false} DotScale(k: real, x: seq<real>, y: seq<real>)
    requires |x| == |y|
    ensures Dot(Scale(k, x), y) == k * Dot(x, y)
    decreases |x|, 1
  {
    if |x| > 0 {
      DotScaleLast(k, x, y);
    }
  }

  lemma {:induction false} DotScaleLast(k: real, x: seq<real>, y: seq<real>)
    requires |x| == |y| > 0
    ensures Dot(Scale(k, x), y) == k * Dot(x, y)
    decreases |x|, 0
  {
    ScaleLast(k, x);
    DotLast(Scale(k, x), y);
    DotLast(x, y);
    DotScale(k, x[..|x| - 1], y[..|y| - 1]);
    DotScaleStep(k, Dot(Scale(k, x), y), Dot(Scale(k, x[..|x| - 1]), y[..|y| - 1]),
                 Dot(x, y), Dot(x[..|x| - 1], y[..|y| - 1]), x[|x| - 1], y[|y| - 1], Scale(k, x)[|x| - 1]);
  }

  lemma {:induction false} DotSymmetric(x: seq<real>, y: seq<real>)
    requires |x| == |y|
    ensures Dot(x, y) == Dot(y, x)
    decreases |x|
  {
    if |x| > 0 {
      DotLast(x, y);
      DotLast(y, x);
      DotSymmetric(x[..|x| - 1], y[..|y| - 1]);
    }
  }

  /** The sum of products distributes over an element-wise sum in its first argument. */
  lemma {:induction false} DotAdd(x: seq<real>, y: seq<real>, z: seq<real>)
    requires |x| == |y| == |z|
    ensures Dot(Add(x, y), z) == Dot(x, z) + Dot(y, z)
    decreases |x|, 1
  {
    if |x| > 0 {
      DotAddLast(x, y, z);
    }
  }

  lemma {:induction false} DotAddLast(x: seq<real>, y: seq<real>, z: seq<real>)
    requires |x| == |y| == |z| > 0
    ensures Dot(Add(x, y), z) == Dot(x, z) + Dot(y, z)
    decreases |x|, 0
  {
    AddLast(x, y);
    DotLast(Add(x, y), z);
    DotLast(x, z);
    DotLast(y, z);
    DotAdd(x[..|x| - 1], y[..|y| - 1], z[..|z| - 1]);
    AddStep(Dot(Add(x, y), z), Dot(Add(x[..|x| - 1], y[..|y| - 1]), z[..|z| - 1]),
            Dot(x, z), Dot(x[..|x| - 1], z[..|z| - 1]), Dot(y, z), Dot(y[..|y| - 1], z[..|z| - 1]),
            Add(x, y)[|x| - 1], x[|x| - 1], y[|y| - 1], z[|z| - 1]);
  }

  /** The sum of products of two scaled sequences carries both factors. */
  lemma DotScaleBoth(p: real, x: seq<real>, q: real, y: seq<real>)
    requires |x| == |y|
    ensures Dot(Scale(p, x), Scale(q, y)) == p * q * Dot(x, y)
  {
    DotScale(p, x, Scale(q, y));
    DotSymmetric(x, Scale(q, y));
    DotScale(q, y, x);
    DotSymmetric(y, x);
    ProductAlgebra(p, q, Dot(Scale(p, x), Scale(q, y)), Dot(x, Scale(q, y)), Dot(x, y));
  }

  /** The sum of squares of an element-wise sum. */
  lemma DotAddSelf(a: seq<real>, b: seq<real>)
    requires |a| == |b|
    ensures Dot(Add(a, b), Add(a, b)) == Dot(a, a) + 2.0 * Dot(a, b) + Dot(b, b)
  {
    DotAdd(a, b, Add(a, b));
    DotSymmetric(a, Add(a, b));
    DotSymmetric(b, Add(a, b));
    DotAdd(a, b, a);
    DotAdd(a, b, b);
    DotSymmetric(b, a);
  }

  // ---------------------------------------------------------------------------
  // Sums of squares

  lemma {:induction false} DotSelfNonneg(t: seq<real>)
    ensures Dot(t, t) >= 0.0
    decreases |t|
  {
    if |t| > 0 {
      DotLast(t, t);
      DotSelfNonneg(t[..|t| - 1]);
      SquareNonneg(t[|t| - 1]);
    }
  }

  /** Each square is bounded by the sum of squares. */
  lemma {:induction false} DotSelfAtLeast(t: seq<real>, i: nat)
    requires i < |t|
    ensures Dot(t, t) >= t[i] * t[i]
    decreases |t|
  {
    DotLast(t, t);
    if i == |t| - 1 {
      DotSelfNonneg(t[..|t| - 1]);
    } else {
      DotSelfAtLeast(t[..|t| - 1], i);
      SquareNonneg(t[|t| - 1]);
    }
  }

  lemma {:induction false} DotSelfZero(t: seq<real>)
    requires forall i :: 0 <= i < |t| ==> t[i] == 0.0
    ensures Dot(t, t) == 0.0
    decreases |t|
  {
    if |t| > 0 {
      DotLast(t, t);
      DotSelfZero(t[..|t| - 1]);
    }
  }

  // ---------------------------------------------------------------------------
  // One-pass and two-pass moments

  /** The two-pass sum expands into the one-pass sums. */
  lemma {:induction false} CoDeviationExpand(x: seq<real>, y: seq<real>, a: real, b: real)
    requires |x| == |y|
    ensures CoDeviation(x, y, a, b) == Dot(x, y) - a * Sum(y) - b * Sum(x) + |x| as real * a * b
    decreases |x|, 1
  {
    if |x| > 0 {
      CoDeviationExpandLast(x, y, a, b);
    }
  }

  lemma {:induction false} CoDeviationExpandLast(x: seq<real>, y: seq<real>, a: real, b: real)
    requires |x| == |y| > 0
    ensures CoDeviation(x, y, a, b) == Dot(x, y) - a * Sum(y) - b * Sum(x) + |x| as real * a * b
    decreases |x|, 0
  {
    CoDeviationLast(x, y, a, b);
    DotLast(x, y);
    SumLast(x);
    SumLast(y);
    LengthLast(x);
    CoDeviationExpand(x[..|x| - 1], y[..|y| - 1], a, b);
    CoDeviationStep(a, b, CoDeviation(x, y, a, b), CoDeviation(x[..|x| - 1], y[..|y| - 1], a, b),
                    Dot(x, y), Dot(x[..|x| - 1], y[..|y| - 1]), Sum(x), Sum(x[..|x| - 1]),
                    Sum(y), Sum(y[..|y| - 1]), |x| as real, |x[..|x| - 1]| as real, x[|x| - 1], y[|y| - 1],
                    Deviations(x, a)[|x| - 1], Deviations(y, b)[|y| - 1]);
  }

  /** The one-pass covariance equals the mean co-deviation from the means (the two-pass form). */
  lemma CovarianceIsMeanCoDeviation(x: seq<real>, y: seq<real>)
    requires |x| == |y| > 0
    ensures Covariance(x, y) == CoDeviation(x, y, Mean(x), Mean(y)) / |x| as real
  {
    CoDeviationExpand(x, y, Mean(x), Mean(y));
    CoDeviationAlgebra(|x| as real, Sum(x), Sum(y), Dot(x, y), Mean(x), Mean(y),
                       CoDeviation(x, y, Mean(x), Mean(y)), Covariance(x, y));
  }

  /** The one-pass variance equals the mean squared deviation from the mean. */
  lemma VarianceIsMeanSquaredDeviation(s: seq<real>)
    requires |s| > 0
    ensures Variance(s) == SumSqDev(s, Mean(s)) / |s| as real
  {
    CovarianceIsMeanCoDeviation(s, s);
  }

  lemma SumSqDevNonneg(s: seq<real>, m: real)
    ensures SumSqDev(s, m) >= 0.0
  {
    DotSelfNonneg(Deviations(s, m));
  }

  lemma VarianceNonneg(x: seq<real>)
    requires |x| > 0
    ensures Variance(x) >= 0.0
  {
    VarianceIsMeanSquaredDeviation(x);
    SumSqDevNonneg(x, Mean(x));
    DivNonneg(SumSqDev(x, Mean(x)), |x| as real);
  }

  lemma DeviationPositive(s: seq<real>, m: real, i: nat)
    requires i < |s| && s[i] != m
    ensures SumSqDev(s, m) > 0.0
  {
    DotSelfAtLeast(Deviations(s, m), i);
    ProductBoundPositive(SumSqDev(s, m), Deviations(s, m)[i], Deviations(s, m)[i]);
  }

  lemma {:induction false} ConstantSum(s: seq<real>)
    requires |s| > 0 && Constant(s)
    ensures Sum(s) == |s| as real * s[0]
    decreases |s|
  {
    SumLast(s);
    if |s| > 1 {
      LengthLast(s);
      ConstantSum(s[..|s| - 1]);
    }
  }

  /** A constant sequence has its element as mean and deviates nowhere from it. */
  lemma ConstantMoments(s: seq<real>)
    requires |s| > 0 && Constant(s)
    ensures Mean(s) == s[0]
    ensures SumSqDev(s, s[0]) == 0.0
  {
    ConstantSum(s);
    DivOfMultiple(|s| as real, s[0], Sum(s));
    DotSelfZero(Deviations(s, s[0]));
  }

  /** The variance vanishes exactly on constant sequences. */
  lemma VarianceZeroIffConstant(s: seq<real>)
    requires |s| > 0
    ensures Variance(s) >= 0.0
    ensures Variance(s) == 0.0 <==> Constant(s)
  {
    VarianceNonneg(s);
    VarianceIsMeanSquaredDeviation(s);
    if Constant(s) {
      ConstantMoments(s);
    } else {
      if forall i :: 0 <= i < |s| ==> s[i] == Mean(s) {
        assert Constant(s);
      }
      var i :| 0 <= i < |s| && s[i] != Mean(s);
      DeviationPositive(s, Mean(s), i);
      DivPositive(SumSqDev(s, Mean(s)), |s| as real);
    }
  }

  // ---------------------------------------------------------------------------
  // Symmetry and scaling of the moments

  lemma CovarianceSymmetric(x: seq<real>, y: seq<real>)
    requires |x| == |y| > 0
    ensures Covariance(x, y) == Covariance(y, x)
  {
    DotSymmetric(x, y);
  }

  lemma MeanScale(k: real, s: seq<real>)
    requires |s| > 0
    ensures Mean(Scale(k, s)) == k * Mean(s)
  {
    SumScale(k, s);
    DivScale(k, Sum(s), |s| as real);
  }

  /** Scaling one argument scales the covariance by the same factor. */
  lemma CovarianceScale(k: real, x: seq<real>, y: seq<real>)
    requires |x| == |y| > 0
    ensures Covariance(Scale(k, x), y) == k * Covariance(x, y)
  {
    DotScale(k, x, y);
    MeanScale(k, x);
    CovarianceScaleAlgebra(k, Dot(x, y), |x| as real, Mean(x), Mean(y));
  }

  /** var(-x) == var(x) and cov(x, -x) == -var(x). */
  lemma NegatedMoments(x: seq<real>)
    requires |x| > 0
    ensures Covariance(x, Scale(-1.0, x)) == -Variance(x)
    ensures Variance(Scale(-1.0, x)) == Variance(x)
  {
    CovarianceScale(-1.0, x, x);
    CovarianceSymmetric(x, Scale(-1.0, x));
    CovarianceScale(-1.0, x, Scale(-1.0, x));
  }

  /** Scaling a sequence by k scales its variance by k². */
  lemma VarianceScale(k: real, x: seq<real>)
    requires |x| > 0
    ensures Variance(Scale(k, x)) == k * k * Variance(x)
  {
    ScaledVariances(k, x, Variance(Scale(k, x)), Variance(x));
  }

  /** `VarianceScale` with the two variances named `vs` (scaled) and `v`. */
  lemma ScaledVariances(k: real, x: seq<real>, vs: real, v: real)
    requires |x| > 0 && vs == Variance(Scale(k, x)) && v == Variance(x)
    ensures vs == k * k * v
  {
    var s := Scale(k, x);
    CovarianceScale(k, x, s);
    CovarianceSymmetric(x, s);
    CovarianceScale(k, x, x);
    ScaleTwiceAlgebra(k, vs, Covariance(x, s), Covariance(s, x), Covariance(x, x), v);
  }

  // ---------------------------------------------------------------------------
  // Cauchy-Schwarz

  /** The two-pass sums of any combination of two deviation sequences make a non-negative form. */
  lemma DeviationFormNonneg(x: seq<real>, y: seq<real>, a: real, b: real, p: real, q: real)
    requires |x| == |y|
    ensures p * p * SumSqDev(x, a) + q * q * SumSqDev(y, b) + 2.0 * p * q * CoDeviation(x, y, a, b) >= 0.0
  {
    DotSelfNonneg(Add(Scale(p, Deviations(x, a)), Scale(q, Deviations(y, b))));
    DotAddSelf(Scale(p, Deviations(x, a)), Scale(q, Deviations(y, b)));
    DotScaleBoth(p, Deviations(x, a), p, Deviations(x, a));
    DotScaleBoth(p, Deviations(x, a), q, Deviations(y, b));
    DotScaleBoth(q, Deviations(y, b), q, Deviations(y, b));
    FormAlgebra(p, q, Dot(Add(Scale(p, Deviations(x, a)), Scale(q, Deviations(y, b))),
                          Add(Scale(p, Deviations(x, a)), Scale(q, Deviations(y, b)))),
                Dot(Scale(p, Deviations(x, a)), Scale(p, Deviations(x, a))),
                Dot(Scale(p, Deviations(x, a)), Scale(q, Deviations(y, b))),
                Dot(Scale(q, Deviations(y, b)), Scale(q, Deviations(y, b))),
                SumSqDev(x, a), CoDeviation(x, y, a, b), SumSqDev(y, b));
  }

  /** For every p, q the form p^2 var(x) + q^2 var(y) + 2pq cov(x, y) is non-negative. */
  lemma QuadForm(x: seq<real>, y: seq<real>, p: real, q: real)
    requires |x| == |y| > 0
    ensures p * p * Variance(x) + q * q * Variance(y) + 2.0 * p * q * Covariance(x, y) >= 0.0
  {
    DeviationFormNonneg(x, y, Mean(x), Mean(y), p, q);
    VarianceIsMeanSquaredDeviation(x);
    VarianceIsMeanSquaredDeviation(y);
    CovarianceIsMeanCoDeviation(x, y);
    QuadFormAlgebra(|x| as real, SumSqDev(x, Mean(x)), SumSqDev(y, Mean(y)), CoDeviation(x, y, Mean(x), Mean(y)),
                    Variance(x), Variance(y), Covariance(x, y), p, q);
  }

  /** A sequence without variance has no covariance with anything. */
  lemma ZeroVarianceCovariance(x: seq<real>, y: seq<real>)
    requires |x| == |y| > 0 && Variance(x) == 0.0
    ensures Covariance(x, y) == 0.0
  {
    if Covariance(x, y) != 0.0 {
      ZeroVarianceAlgebra(Variance(x), Variance(y), Covariance(x, y), -(Variance(y) + 1.0) / (2.0 * Covariance(x, y)));
      QuadForm(x, y, -(Variance(y) + 1.0) / (2.0 * Covariance(x, y)), 1.0);
      assert false;
    }
  }

  /** Cauchy-Schwarz for population moments. */
  lemma CauchySchwarz(x: seq<real>, y: seq<real>)
    requires |x| == |y| > 0
    ensures Covariance(x, y) * Covariance(x, y) <= Variance(x) * Variance(y)
  {
    VarianceNonneg(x);
    if Variance(x) > 0.0 {
      QuadForm(x, y, Covariance(x, y), -Variance(x));
      CauchySchwarzAlgebra(Variance(x), Variance(y), Covariance(x, y), -Variance(x));
    } else {
      ZeroVarianceCovariance(x, y);
    }
  }
}
