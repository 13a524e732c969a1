/** The integer exponential of the iNLU is exponential: how far it is from turning sums into products. */
module ExpLaw {
  import opened Arithmetic
  import opened Inlu

  // ------------------------------------------------------------ polynomials

  /** 4a^3 bounds 27 z^2 (a - z): the difference is (2a - 3z)^2 (a + 3z). */
  lemma {:induction false} CubicBound(a: int, z: int)
    requires 0 <= a && 0 <= z
    ensures 27 * (z * z * (a - z)) <= 4 * (a * a * a)
  {
    var w := 2 * a - 3 * z;
    assert w * w >= 0;
    assert (w * w) * (a + 3 * z) >= 0;
    assert (w * w) * (a + 3 * z) == 4 * (a * a * a) - 27 * (z * z * (a - z));
  }

  lemma {:induction false} ScaledCubic(a: int, b: int, s: int)
    requires 0 <= a && 0 <= b && 0 <= s
    ensures 27 * (b * b * (s * s * (a - b * s))) <= 4 * (a * a * a)
  {
    CubicBound(a, b * s);
    assert (b * s) * (b * s) * (a - b * s) == b * b * (s * s * (a - b * s));
  }

  /** The product of two numbers is at most a quarter of the square of their sum. */
  lemma {:induction false} ProductBound(u: int, v: int)
    ensures 4 * (u * v) <= (u + v) * (u + v)
  {
    assert (u - v) * (u - v) >= 0;
    assert (u + v) * (u + v) == (u - v) * (u - v) + 4 * (u * v);
  }

  // ------------------------------------------------------------ the quadratic without its rounding

  const ONE: int := 0x4000_0000

  /** The quadratic in units of 2^-20. */
  function Fine(p: int): int {
    367 * (p * p) + 1016590 * p + 1073087327
  }

  /** The same from the other end of the segment, 710 below. */
  function FineLow(w: int): int {
    367 * (w * w) + 495450 * w + 536313127
  }

  lemma {:induction false} FineIsPoly(p: int)
    ensures Poly(p) * 0x10_0000 <= Fine(p) < Poly(p) * 0x10_0000 + 0x10_0000
    ensures FineLow(p + LN2_Q10) == Fine(p)
  {
    assert COEFF_A * ((p + COEFF_B) * (p + COEFF_B)) == 367 * (p * p) + 1016590 * p + 703988575;
    assert (p + 710) * (p + 710) == p * p + 1420 * p + 504100;
  }

  /** Above, the quadratic turns sums into products up to these two small terms. */
  lemma {:induction false} Upper(x: int, y: int)
    ensures Fine(x) * Fine(y) - ONE * Fine(x + y) ==
              -654497 * (Fine(x) + Fine(y) - 1073087327)
              + (x * y) * (245328729284 + 373088530 * (x + y) + 134689 * (x * y))
  {
  }

  lemma {:induction false} Lower(u: int, v: int)
    ensures FineLow(u) * FineLow(v) - 0x2000_0000 * FineLow(u + v) ==
              -557785 * (FineLow(u) + FineLow(v) - 536313127)
              + (u * v) * (-148592546908 + 181830150 * (u + v) + 134689 * (u * v))
  {
  }

  // ------------------------------------------------------------ the second terms are small

  const UNIT: int := 0x100_0000_0000

  lemma {:induction false} Monotone(a: int, b: int, c: int, d: int)
    requires 0 <= a <= b && 0 <= c <= d
    ensures a * c <= b * d
  {
    assert a * c <= b * c <= b * d;
  }

  lemma {:induction false} ProductLow(m: int, g: int, low: int)
    requires 0 <= m && low <= g
    ensures m * low <= m * g
  {
  }

  lemma {:induction false} UpperPositive(s: int, m: int, g: int)
    requires 0 <= s && 0 <= 4 * m <= s * s
    requires 0 < 4 * g <= 981314917136 - 1396724930 * s
    ensures m * g <= 4080 * UNIT
  {
    var a, b := 981314917136, 1396724930;
    Monotone(4 * m, s * s, 4 * g, a - b * s);
    ScaledCubic(a, b, s);
    assert (4 * m) * (4 * g) == 16 * (m * g);
  }

  lemma {:induction false} UpperTerm(s: int, m: int)
    requires 0 <= s <= 710 && 0 <= 4 * m <= s * s
    ensures -2243 * UNIT <= m * (245328729284 - 373088530 * s + 134689 * m) <= 4080 * UNIT
  {
    var g := 245328729284 - 373088530 * s + 134689 * m;
    SquareBound(s);
    assert m * g >= -2243 * UNIT by {
      ProductLow(m, g, -19564127016);
    }
    if 0 < g {
      UpperPositive(s, m, g);
    } else {
      ProductLow(m, 0, g);
    }
  }

  lemma {:induction false} SquareBound(s: int)
    requires 0 <= s <= 710
    ensures s * s <= 710 * s <= 504100
  {
    Monotone(s, s, s, 710);
  }

  lemma {:induction false} LowerTerm(s: int, m: int)
    requires 0 <= s <= 710 && 0 <= 4 * m <= s * s
    ensures -2814 * UNIT <= m * (-148592546908 + 181830150 * s + 134689 * m) <= 0
  {
    hide *;
    SquareBound(s);
    ProductLow(m, 0, -148592546908 + 181830150 * s + 134689 * m);
    if 4 * (-148592546908 + 181830150 * s) + 134689 * (4 * m + s * s) <= 0 {
      LowerSide(s, m);
      LowerCurve(s);
    } else {
      LowerFlat(s, m);
    }
  }

  /** Where the product falls with m, it is least at the largest m. */
  lemma {:induction false} LowerSide(s: int, m: int)
    requires 0 <= 4 * m <= s * s
    requires 4 * (-148592546908 + 181830150 * s) + 134689 * (4 * m + s * s) <= 0
    ensures 16 * (m * (-148592546908 + 181830150 * s + 134689 * m)) >=
              (s * s) * (4 * (-148592546908 + 181830150 * s) + 134689 * (s * s))
  {
    var g, l, q, r := -148592546908 + 181830150 * s, 134689, s * s, 4 * m;
    assert (q - r) * (4 * g + l * (r + q)) <= 0;
    assert (q - r) * (4 * g + l * (r + q)) == q * (4 * g + l * q) - r * (4 * g + l * r);
    assert r * (4 * g + l * r) == 16 * (m * (g + l * m));
  }

  lemma {:induction false} LowerCurve(s: int)
    requires 0 <= s
    ensures (s * s) * (4 * (-148592546908 + 181830150 * s) + 134689 * (s * s)) >= -16 * 2814 * UNIT
  {
    var a, b := 634376187857, 874131610;
    assert (s - 545) * (s - 545) >= 0;
    assert s * s >= 1090 * s - 297025;
    assert 4 * (-148592546908 + 181830150 * s) + 134689 * (s * s) >= b * s - a;
    assert (s * s) * (4 * (-148592546908 + 181830150 * s) + 134689 * (s * s)) >= (s * s) * (b * s - a);
    ScaledCubic(a, b, s);
    assert (s * s) * (b * s - a) == -(s * s * (a - b * s));
  }

  lemma {:induction false} LowerFlat(s: int, m: int)
    requires 0 <= s <= 710 && 0 <= 4 * m <= s * s
    requires 4 * (-148592546908 + 181830150 * s) + 134689 * (4 * m + s * s) > 0
    ensures m * (-148592546908 + 181830150 * s + 134689 * m) >= -2814 * UNIT
  {
    SquareBound(s);
    ProductLow(m, -148592546908 + 181830150 * s + 134689 * m, -16974181225);
  }

  // ------------------------------------------------------------ on one segment

  /** Rounding down the factors and the value they are compared with. */
  lemma {:induction false} Rounding(f: int, p: int, g: int, q: int, h: int, r: int, k: int)
    requires 0 <= p && 0 <= q && 0 <= k
    requires p * 0x10_0000 <= f < p * 0x10_0000 + 0x10_0000
    requires q * 0x10_0000 <= g < q * 0x10_0000 + 0x10_0000
    requires r * 0x10_0000 <= h < r * 0x10_0000 + 0x10_0000
    ensures (p * q - k * r) * UNIT <= f * g - 0x10_0000 * (k * h) + k * UNIT
    ensures (p * q - k * r) * UNIT >= f * g - 0x10_0000 * (k * h) - (p + q + 1) * UNIT
  {
    var a, b, c := f - p * 0x10_0000, g - q * 0x10_0000, h - r * 0x10_0000;
    assert f * g == UNIT * (p * q) + 0x10_0000 * (a * q) + 0x10_0000 * (b * p) + a * b;
    assert k * h == 0x10_0000 * (k * r) + k * c;
    Monotone(0, k, 0, c);
    Monotone(k, k, c, 0x10_0000);
    Monotone(a, 0x10_0000, q, q);
    Monotone(b, 0x10_0000, p, p);
    Monotone(a, 0x10_0000, b, 0x10_0000);
    Monotone(0, a, 0, b);
    Monotone(0, a, 0, q);
    Monotone(0, b, 0, p);
  }

  lemma {:induction false} FineRange(p: int)
    requires -LN2_Q10 < p <= 0
    ensures 536808944 <= Fine(p) <= 1073087327
  {
    SquareOrder(-709 + COEFF_B, p + COEFF_B);
    SquareOrder(p + COEFF_B, COEFF_B);
    assert (p + COEFF_B) * (p + COEFF_B) == p * p + 2770 * p + 1918225;
  }

  lemma {:induction false} SumSquare(u: int, v: int)
    ensures (u + v) * (u + v) == u * u + 2 * (u * v) + v * v
  {
  }

  lemma {:induction false} FineLowSum(u: int, v: int)
    requires 0 < u && 0 < v && u + v <= 710
    ensures FineLow(u) + FineLow(v) <= 1609400454
  {
    SumSquare(u, v);
    SquareBound(u + v);
    Monotone(0, u, 0, v);
  }

  lemma {:induction false} FineProduct(x: int, y: int)
    requires -LN2_Q10 < x <= 0 && -LN2_Q10 < y <= 0 && -LN2_Q10 < x + y
    ensures -2882 * UNIT <= Fine(x) * Fine(y) - ONE * Fine(x + y) <= 4080 * UNIT
  {
    hide Fine;
    Upper(x, y);
    FineRange(x);
    FineRange(y);
    ProductBound(x, y);
    assert (x + y) * (x + y) == (-(x + y)) * (-(x + y));
    Monotone(0, -x, 0, -y);
    UpperTerm(-(x + y), x * y);
  }

  lemma {:induction false} FineProductLow(u: int, v: int)
    requires 0 < u && 0 < v && u + v <= 710
    requires FineLow(u) + FineLow(v) >= 536313127
    ensures -3359 * UNIT <= FineLow(u) * FineLow(v) - 0x2000_0000 * FineLow(u + v) <= 0
  {
    hide FineLow;
    Lower(u, v);
    FineLowSum(u, v);
    ProductBound(u, v);
    Monotone(0, u, 0, v);
    LowerTerm(u + v, u * v);
  }

  lemma {:induction false} OneSegment(x: int)
    requires -LN2_Q10 < x <= 0
    ensures Exp(x) == Poly(x) && 511 <= Poly(x) <= EXP_ONE
  {
    assert Halvings(x) == 0 && Reduced(x) == x;
    PolyOrder(x, x);
  }

  /** Arguments whose sum stays within the segment. */
  lemma {:induction false} ProductWithin(x: int, y: int)
    requires -LN2_Q10 < x <= 0 && -LN2_Q10 < y <= 0 && -LN2_Q10 < x + y
    ensures -5120 <= Exp(x) * Exp(y) - 1024 * Exp(x + y) <= 5120
  {
    hide Exp, Poly, Fine;
    OneSegment(x);
    OneSegment(y);
    OneSegment(x + y);
    FineProduct(x, y);
    FineIsPoly(x);
    FineIsPoly(y);
    FineIsPoly(x + y);
    Rounding(Fine(x), Poly(x), Fine(y), Poly(y), Fine(x + y), Poly(x + y), 1024);
  }

  /** Arguments whose sum falls into the segment below. */
  lemma {:induction false} ProductBelow(x: int, y: int)
    requires -LN2_Q10 < x <= 0 && -LN2_Q10 < y <= 0 && x + y <= -LN2_Q10
    ensures -5120 <= Exp(x) * Exp(y) - 1024 * Exp(x + y) <= 5120
  {
    hide Exp, Poly, Fine, FineLow;
    var u, v, w := x + 710, y + 710, x + y + 710;
    OneSegment(x);
    OneSegment(y);
    OneSegment(w);
    ExpHalves(w);
    FineRange(x);
    FineRange(y);
    FineIsPoly(x);
    FineIsPoly(y);
    FineIsPoly(w);
    FineProductLow(u, v);
    FineLowSum(u, v);
    Rounding(Fine(x), Poly(x), Fine(y), Poly(y), Fine(w), Poly(w), 512);
  }

  // ------------------------------------------------------------ the functional equation

  /** Halving a factor halves the difference and adds what the two roundings lose. */
  lemma {:induction false} HalvedProduct(e: int, f: int, g: int)
    requires 0 <= f <= EXP_ONE && -5120 <= e * f - 1024 * g <= 5120
    ensures -5120 <= (e / 2) * f - 1024 * (g / 2) <= 5120
  {
    var r, t := e % 2, g % 2;
    assert e == 2 * (e / 2) + r && g == 2 * (g / 2) + t;
    assert e * f == 2 * ((e / 2) * f) + r * f;
    Monotone(0, r, 0, f);
    Monotone(r, 1, f, EXP_ONE);
  }

  /** The exponential turns sums into products, to within five units of 1024. */
  lemma {:induction false} ExpProduct(x: int, y: int)
    requires x <= 0 && y <= 0
    ensures -5120 <= Exp(x) * Exp(y) - 1024 * Exp(x + y) <= 5120
    decreases -x - y
  {
    hide Exp;
    if x <= -LN2_Q10 {
      ExpProduct(x + LN2_Q10, y);
      ExpHalves(x + LN2_Q10);
      ExpHalves(x + y + LN2_Q10);
      ExpShifts(y);
      HalvedProduct(Exp(x + LN2_Q10), Exp(y), Exp(x + y + LN2_Q10));
    } else if y <= -LN2_Q10 {
      ExpProduct(x, y + LN2_Q10);
      ExpHalves(y + LN2_Q10);
      ExpHalves(x + y + LN2_Q10);
      ExpShifts(x);
      HalvedProduct(Exp(y + LN2_Q10), Exp(x), Exp(x + y + LN2_Q10));
    } else if -LN2_Q10 < x + y {
      ProductWithin(x, y);
    } else {
      ProductBelow(x, y);
    }
  }

  /**
   * The ratio of two outputs of the softmax depends on the difference of their logits only: the smaller
   * is the larger times the exponential of the difference, to within what rounding and the exponential
   * lose.
   */
  lemma {:induction false} SoftmaxRatio(logits: seq<int>, i: nat, j: nat)
    requires Shifted(logits) && i < |logits| && j < |logits| && logits[i] <= logits[j]
    ensures Softmax(logits).Ok? && |Softmax(logits).value| == |logits| && Sum(Exps(logits)) > 0
    ensures var out, total := Softmax(logits).value, Sum(Exps(logits));
            var gap := (out[j] * Exp(logits[i] - logits[j]) - 1024 * out[i]) * total;
            -(5120 * OUTPUT_SCALE + 1024 * total) <= gap <= 5120 * OUTPUT_SCALE + 1024 * total
  {
    hide Exp, Sum, Quotient;
    SoftmaxDefined(logits);
    var d := logits[i] - logits[j];
    ExpProduct(logits[j], d);
    ExpShifts(d);
    QuotientNear(Exp(logits[i]), Sum(Exps(logits)));
    QuotientNear(Exp(logits[j]), Sum(Exps(logits)));
    ScaledGap(Softmax(logits).value[i], Softmax(logits).value[j], Exp(logits[i]), Exp(logits[j]), Exp(d),
              Sum(Exps(logits)));
  }

  lemma {:induction false} ScaledGap(a: int, b: int, ea: int, eb: int, ed: int, total: int)
    requires 0 <= ed <= EXP_ONE && 0 < total && -5120 <= eb * ed - 1024 * ea <= 5120
    requires 2 * (a * total - ea * OUTPUT_SCALE) <= total && 2 * (ea * OUTPUT_SCALE - a * total) <= total
    requires 2 * (b * total - eb * OUTPUT_SCALE) <= total && 2 * (eb * OUTPUT_SCALE - b * total) <= total
    ensures var gap := (b * ed - 1024 * a) * total;
            -(5120 * OUTPUT_SCALE + 1024 * total) <= gap <= 5120 * OUTPUT_SCALE + 1024 * total
  {
    var r, t := b * total - eb * OUTPUT_SCALE, a * total - ea * OUTPUT_SCALE;
    assert (b * ed - 1024 * a) * total == ed * (b * total) - 1024 * (a * total);
    assert ed * (b * total) == OUTPUT_SCALE * (eb * ed) + ed * r;
    ScaledHalf(ed, r, total);
  }

  lemma {:induction false} ScaledHalf(ed: int, r: int, total: int)
    requires 0 <= ed <= EXP_ONE && 0 < total && 2 * r <= total && -2 * r <= total
    ensures -EXP_ONE * total <= 2 * (ed * r) <= EXP_ONE * total
  {
    Monotone(ed, EXP_ONE, total, total);
    assert ed * (2 * r) <= ed * total;
    assert ed * (-2 * r) <= ed * total;
  }
}
