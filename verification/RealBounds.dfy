/**
 Distances of real values, and how operations on values spread absolute and
 relative errors.
 */
module RealBounds {

  function Magnitude(x: real): (r: real)
    ensures r >= 0.0
  {
    if x < 0.0 then -x else x
  }

  function Distance(x: real, y: real): (r: real)
    ensures r >= 0.0
  {
    Magnitude(x - y)
  }

  function Larger(x: real, y: real): real {
    if x < y then y else x
  }

  function Smaller(x: real, y: real): real {
    if x < y then x else y
  }

  lemma Triangle(x: real, y: real, z: real)
    ensures Distance(x, z) <= Distance(x, y) + Distance(y, z)
    ensures Magnitude(x) <= Magnitude(y) + Distance(x, y)
  {
  }

  lemma Times(e: real, a: real, b: real)
    requires e >= 0.0 && a <= b
    ensures e * a <= e * b
  {
  }

  lemma TimesPositive(a: real, b: real)
    requires a > 0.0 && b > 0.0
    ensures a * b > 0.0
  {
  }

  lemma MagnitudeOfProduct(x: real, y: real)
    ensures Magnitude(x * y) == Magnitude(x) * Magnitude(y)
  {
    if x < 0.0 && y < 0.0 { assert x * y == (-x) * (-y); Times(-x, 0.0, -y); }
    else if x < 0.0 { assert -(x * y) == (-x) * y; Times(-x, 0.0, y); }
    else if y < 0.0 { assert -(x * y) == x * (-y); Times(x, 0.0, -y); }
    else { Times(x, 0.0, y); }
  }

  /** An exact factor scales both the value and the error. */
  lemma DistanceScales(c: real, x: real, y: real)
    ensures Distance(c * x, c * y) == Magnitude(c) * Distance(x, y)
  {
    assert c * x - c * y == c * (x - y);
    MagnitudeOfProduct(c, x - y);
  }

  /** A relative error survives an exact factor. */
  lemma RelativeScales(c: real, x: real, x': real, a: real)
    requires Distance(x', x) <= a * Magnitude(x)
    ensures Distance(c * x', c * x) <= a * Magnitude(c * x)
  {
    DistanceScales(c, x', x);
    MagnitudeOfProduct(c, x);
    Times(Magnitude(c), Distance(x', x), a * Magnitude(x));
    Commute(Magnitude(c), a, Magnitude(x));
  }

  lemma RelativeScalesRight(c: real, x: real, x': real, a: real)
    requires Distance(x', x) <= a * Magnitude(x)
    ensures Distance(x' * c, x * c) <= a * Magnitude(x * c)
  {
    RelativeScales(c, x, x', a);
    assert c * x == x * c && c * x' == x' * c;
  }

  lemma Commute(p: real, q: real, r: real)
    ensures p * (q * r) == q * (p * r)
    ensures p * (q * r) == (p * q) * r
  {
  }

  /** One more layer on a value already within `g - 1` of the truth. */
  lemma LayerStep(truth: real, x: real, y: real, g: real, e: real)
    requires g >= 1.0 && e >= 0.0
    requires Distance(x, truth) <= (g - 1.0) * Magnitude(truth)
    requires Distance(y, x) <= e * Magnitude(x)
    ensures Distance(y, truth) <= (g * (1.0 + e) - 1.0) * Magnitude(truth)
  {
    hide *;
    var m := Magnitude(truth);
    MagnitudeOfLayer(truth, x, g, m);
    Times(e, Magnitude(x), g * m);
    Triangle(y, x, truth);
    LayerSum(Distance(y, truth), Distance(y, x), Distance(x, truth), e, g, m);
  }

  lemma MagnitudeOfLayer(truth: real, x: real, g: real, m: real)
    requires Distance(x, truth) <= (g - 1.0) * m && m == Magnitude(truth)
    ensures Magnitude(x) <= g * m
  {
    Triangle(x, truth, truth);
  }

  lemma LayerSum(dy: real, d2: real, d1: real, e: real, g: real, m: real)
    requires dy <= d2 + d1 && d2 <= e * (g * m) && d1 <= (g - 1.0) * m
    ensures dy <= (g * (1.0 + e) - 1.0) * m
  {
    LayerArithmetic(g, e, m);
  }

  lemma LayerArithmetic(g: real, e: real, m: real)
    ensures (g - 1.0) * m == g * m - m
    ensures e * (g * m) + (g * m - m) == (g * (1.0 + e) - 1.0) * m
  {
    Commute(e, g, m);
    assert (g * (1.0 + e) - 1.0) == g + g * e - 1.0;
    assert (g + g * e - 1.0) * m == g * m + (g * e) * m - m;
  }

  /** Two relative errors in a product. */
  lemma RelativeProduct(x: real, x': real, y: real, y': real, a: real, b: real)
    requires a >= 0.0 && b >= 0.0
    requires Distance(x', x) <= a * Magnitude(x) && Distance(y', y) <= b * Magnitude(y)
    ensures Distance(x' * y', x * y) <= (a + b + a * b) * Magnitude(x * y)
  {
    hide *;
    var half := HalfProduct(x, x', y, y', a, b);
    ProductOfLayers(x * y, half, x' * y', a, b);
  }

  /** The product with only its first factor off by its error. */
  lemma HalfProduct(x: real, x': real, y: real, y': real, a: real, b: real) returns (half: real)
    requires Distance(x', x) <= a * Magnitude(x) && Distance(y', y) <= b * Magnitude(y)
    ensures Distance(half, x * y) <= a * Magnitude(x * y)
    ensures Distance(x' * y', half) <= b * Magnitude(half)
  {
    RelativeScalesRight(y, x, x', a);
    RelativeScales(x', y, y', b);
    hide *;
    half := x' * y;
  }

  lemma ProductOfLayers(truth: real, x: real, y: real, a: real, b: real)
    requires a >= 0.0 && b >= 0.0
    requires Distance(x, truth) <= a * Magnitude(truth) && Distance(y, x) <= b * Magnitude(x)
    ensures Distance(y, truth) <= (a + b + a * b) * Magnitude(truth)
  {
    hide *;
    LayerStep(truth, x, y, 1.0 + a, b);
    assert (1.0 + a) * (1.0 + b) - 1.0 == a + b + a * b;
  }

  /** A relative error below one keeps the sign: zero stays zero and the rest stays away from it. */
  lemma RelativeKeepsSign(y: real, y': real, b: real)
    requires 0.0 <= b < 1.0 && Distance(y', y) <= b * Magnitude(y)
    ensures y == 0.0 <==> y' == 0.0
    ensures (1.0 - b) * Magnitude(y) <= Magnitude(y')
    ensures y > 0.0 <==> y' > 0.0
  {
    KeepsSign(y, y', b, Magnitude(y));
  }

  lemma KeepsSign(y: real, y': real, b: real, m: real)
    requires 0.0 <= b < 1.0 && Distance(y', y) <= b * m && m == Magnitude(y)
    ensures y == 0.0 <==> y' == 0.0
    ensures (1.0 - b) * m <= Magnitude(y')
    ensures y > 0.0 <==> y' > 0.0
  {
    Triangle(y, y', y);
    DistanceSymmetric(y, y');
    MagnitudeZero(y);
    hide *;
    assert (1.0 - b) * m == m - b * m;
    if m > 0.0 {
      BelowWhole(b, m);
      SignKept(y, y', b * m, m);
    } else {
      StillZero(y, y', b * m);
    }
  }

  lemma DistanceSymmetric(x: real, y: real)
    ensures Distance(x, y) == Distance(y, x)
  {
  }

  lemma MagnitudeZero(x: real)
    ensures Magnitude(x) == 0.0 <==> x == 0.0
    ensures Magnitude(x) >= 0.0
  {
  }

  lemma StillZero(y: real, y': real, e: real)
    requires y == 0.0 && e == 0.0 && Distance(y', y) <= e
    ensures y' == 0.0
  {
  }

  lemma BelowWhole(b: real, m: real)
    requires b < 1.0 && m > 0.0
    ensures b * m < m
  {
    TimesPositive(1.0 - b, m);
  }

  lemma SignKept(y: real, y': real, e: real, m: real)
    requires Distance(y', y) <= e < m == Magnitude(y)
    ensures y' != 0.0
    ensures y > 0.0 <==> y' > 0.0
  {
  }

  lemma DivideBound(p: real, q: real, r: real)
    requires q > 0.0 && p <= r * q
    ensures p / q <= r
  {
    assert (p / q) * q == p;
    CancelPositive(p / q, r, q);
  }

  /** `x / y - t` is `(x - t * y) / y`. */
  lemma QuotientOf(x: real, t: real, y: real)
    requires y != 0.0
    ensures Distance(x / y, t) * Magnitude(y) == Magnitude(x - t * y)
  {
    var q := x / y;
    assert q * y == x;
    assert (q - t) * y == x - t * y;
    MagnitudeOfProduct(q - t, y);
  }

  /** `x' - t * y'` for `x = t * y`: what the two errors add up to. */
  lemma QuotientNumerator(x: real, x': real, t: real, y: real, y': real, a: real, b: real)
    requires a >= 0.0 && b >= 0.0 && x == t * y
    requires Distance(x', x) <= a * Magnitude(x) && Distance(y', y) <= b * Magnitude(y)
    ensures Magnitude(x' - t * y') <= (a + b) * (Magnitude(t) * Magnitude(y))
  {
    hide *;
    RelativeScales(t, y, y', b);
    MagnitudeOfProduct(t, y);
    TwoErrors(x, x', t * y', a, b);
  }

  lemma TwoErrors(x: real, x': real, z: real, a: real, b: real)
    requires Distance(x', x) <= a * Magnitude(x) && Distance(z, x) <= b * Magnitude(x)
    ensures Magnitude(x' - z) <= (a + b) * Magnitude(x)
  {
    Triangle(x', x, z);
    assert Distance(x, z) == Distance(z, x);
    assert Distance(x', z) == Magnitude(x' - z);
    AddBounds(Distance(x', x), Distance(x, z), a, b, Magnitude(x));
  }

  lemma AddBounds(p: real, q: real, a: real, b: real, m: real)
    requires p <= a * m && q <= b * m
    ensures p + q <= (a + b) * m
  {
  }

  lemma NonNegativeQuotient(p: real, q: real)
    requires p >= 0.0 && q > 0.0
    ensures p / q >= 0.0
    ensures (p / q) * q == p
  {
  }

  lemma QuotientScale(c: real, s: real, k: real, m: real, n: real, z: real)
    requires c >= 0.0 && m >= 0.0 && c * k == s && k * n <= z
    ensures s * (m * n) <= (c * m) * z
  {
    Times(c, 0.0, m);
    Times(c * m, k * n, z);
    assert (c * m) * (k * n) == (c * k) * (m * n) by {
      Commute(c, m, k * n);
      Commute(m, k, n);
      Commute(c, k, m * n);
    }
  }

  /** Two relative errors in a quotient whose denominator's bound is below one. */
  lemma RelativeQuotient(x: real, x': real, y: real, y': real, a: real, b: real)
    requires a >= 0.0 && 0.0 <= b < 1.0 && y != 0.0
    requires Distance(x', x) <= a * Magnitude(x) && Distance(y', y) <= b * Magnitude(y)
    ensures y' != 0.0
    ensures Distance(x' / y', x / y) <= (a + b) / (1.0 - b) * Magnitude(x / y)
  {
    RelativeKeepsSign(y, y', b);
    assert Magnitude(y') > 0.0;
    var t := x / y;
    assert x == t * y;
    hide *;
    RatioOf(x, x', t, y, y', a, b);
  }

  lemma RatioOf(x: real, x': real, t: real, y: real, y': real, a: real, b: real)
    requires a >= 0.0 && 0.0 <= b < 1.0 && x == t * y && y' != 0.0 && Magnitude(y') > 0.0
    requires Distance(x', x) <= a * Magnitude(x) && Distance(y', y) <= b * Magnitude(y)
    requires (1.0 - b) * Magnitude(y) <= Magnitude(y')
    ensures Distance(x' / y', t) <= (a + b) / (1.0 - b) * Magnitude(t)
  {
    hide *;
    QuotientNumerator(x, x', t, y, y', a, b);
    QuotientOf(x', t, y');
    QuotientBound(Distance(x' / y', t), Magnitude(t), Magnitude(y), Magnitude(y'), a + b, 1.0 - b);
  }

  lemma QuotientBound(d: real, m: real, n: real, z: real, s: real, k: real)
    requires m >= 0.0 && s >= 0.0 && k > 0.0 && z > 0.0
    requires d * z <= s * (m * n) && k * n <= z
    ensures d <= s / k * m
  {
    NonNegativeQuotient(s, k);
    QuotientScale(s / k, s, k, m, n, z);
    CancelPositive(d, s / k * m, z);
  }

  lemma CancelPositive(p: real, q: real, r: real)
    requires r > 0.0 && p * r <= q * r
    ensures p <= q
  {
    if p > q { TimesPositive(p - q, r); }
  }

  /** An exact divisor scales an absolute error. */
  lemma AbsoluteDivisor(x: real, x': real, c: real)
    requires c != 0.0
    ensures Distance(x' / c, x / c) == 1.0 / Magnitude(c) * Distance(x', x)
  {
    var t := x / c;
    assert t * c == x;
    QuotientOf(x', t, c);
    assert Magnitude(c) > 0.0;
    var inverse := 1.0 / Magnitude(c);
    assert inverse * Magnitude(c) == 1.0;
    var d := Distance(x' / c, t);
    Commute(inverse, d, Magnitude(c));
    assert inverse * (d * Magnitude(c)) == d;
  }

  /** An exact divisor keeps a relative error. */
  lemma RelativeDivisor(x: real, x': real, c: real, a: real)
    requires c != 0.0 && Distance(x', x) <= a * Magnitude(x)
    ensures Distance(x' / c, x / c) <= a * Magnitude(x / c)
  {
    var t := x / c;
    assert t * c == x;
    DivisorTerms(x, x', c, t);
    hide *;
    SharePerDivisor(Distance(x' / c, t), a, Magnitude(x), Magnitude(t), Magnitude(c));
  }

  lemma DivisorTerms(x: real, x': real, c: real, t: real)
    requires c != 0.0 && t * c == x
    ensures Magnitude(c) > 0.0 && Magnitude(x) == Magnitude(t) * Magnitude(c)
    ensures Distance(x' / c, t) * Magnitude(c) == Distance(x', x)
  {
    QuotientOf(x', t, c);
    MagnitudeOfProduct(t, c);
  }

  lemma SharePerDivisor(d: real, a: real, x: real, t: real, c: real)
    requires c > 0.0 && x == t * c && d * c <= a * x
    ensures d <= a * t
  {
    Commute(a, t, c);
    CancelPositive(d, a * t, c);
  }

  // ------------------------------------------------- extrema and clamps

  /** A max or min is within the larger of two absolute errors. */
  lemma AbsoluteExtremum(x: real, x': real, y: real, y': real, e: real)
    requires Distance(x', x) <= e && Distance(y', y) <= e
    ensures Distance(Larger(x', y'), Larger(x, y)) <= e
    ensures Distance(Smaller(x', y'), Smaller(x, y)) <= e
  {
  }

  /** The lowest and highest value within relative `a` of `x`. */
  function Low(x: real, a: real): real {
    x - a * Magnitude(x)
  }

  function High(x: real, a: real): real {
    x + a * Magnitude(x)
  }

  lemma RelativeBand(x: real, x': real, a: real)
    ensures Distance(x', x) <= a * Magnitude(x) <==> Low(x, a) <= x' <= High(x, a)
  {
  }

  lemma BandIsMonotone(x: real, y: real, a: real)
    requires 0.0 <= a <= 1.0 && x <= y
    ensures Low(x, a) <= Low(y, a) && High(x, a) <= High(y, a)
  {
    Grows(a, Magnitude(y) - Magnitude(x), y - x);
    assert a * (Magnitude(y) - Magnitude(x)) == a * Magnitude(y) - a * Magnitude(x);
  }

  lemma Grows(a: real, p: real, d: real)
    requires 0.0 <= a <= 1.0 && -d <= p <= d
    ensures -d <= a * p <= d
  {
    if p >= 0.0 {
      Share(a, p);
    } else {
      NegativeShare(a, p, -p, d);
    }
  }

  lemma NegativeShare(a: real, p: real, q: real, d: real)
    requires 0.0 <= a <= 1.0 && q == 0.0 - p && 0.0 <= q <= d
    ensures 0.0 - d <= a * p <= 0.0
  {
    Share(a, q);
    Negate(a, p, q);
  }

  lemma Negate(a: real, p: real, q: real)
    requires q == -p
    ensures a * p == -(a * q)
  {
  }

  lemma Share(a: real, p: real)
    requires 0.0 <= a <= 1.0 && p >= 0.0
    ensures 0.0 <= a * p <= p
  {
    Times(p, a, 1.0);
    Times(p, 0.0, a);
    assert p * a == a * p;
  }

  /** A max or min keeps a common relative bound of at most one, whatever the signs. */
  lemma RelativeExtremum(x: real, x': real, y: real, y': real, a: real)
    requires 0.0 <= a <= 1.0
    requires Distance(x', x) <= a * Magnitude(x) && Distance(y', y) <= a * Magnitude(y)
    ensures Distance(Larger(x', y'), Larger(x, y)) <= a * Magnitude(Larger(x, y))
    ensures Distance(Smaller(x', y'), Smaller(x, y)) <= a * Magnitude(Smaller(x, y))
  {
    RelativeBand(x, x', a);
    RelativeBand(y, y', a);
    RelativeBand(Larger(x, y), Larger(x', y'), a);
    RelativeBand(Smaller(x, y), Smaller(x', y'), a);
    hide Distance, Magnitude, Low, High;
    if x <= y { BandIsMonotone(x, y, a); } else { BandIsMonotone(y, x, a); }
  }
}
