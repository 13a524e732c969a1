/** The integer exponential and softmax of the iNLU (scripts/iNLU_algorithm_sim.py), over Q10 logits. */
module Inlu {
  import opened Arithmetic

  const OUTPUT_BITS: nat := 24
  const OUTPUT_SCALE: int := 0x100_0000
  const LN2_Q10: int := 710
  const COEFF_A: int := 367
  const COEFF_B: int := 1385
  const COEFF_C: int := 352
  const EXP_ONE: int := 1023

  // ------------------------------------------------------------ fixed_point_poly_exp_q10

  /** Division that rounds down also for negative dividends. */
  function FloorDiv(a: int, b: int): int
    requires b > 0
  {
    a / b
  }

  /** The number of halvings (when negative) or doublings. */
  function Halvings(x: int): int {
    -FloorDiv(-x, LN2_Q10)
  }

  function Reduced(x: int): int {
    x - Halvings(x) * LN2_Q10
  }

  /** The quadratic on the reduced argument; 2^20 is 1048576. */
  function Poly(p: int): int {
    (COEFF_A * ((p + COEFF_B) * (p + COEFF_B))) / 1048576 + COEFF_C
  }

  function ShiftRight(a: int, n: nat): int
    decreases n
  {
    if n == 0 then a else ShiftRight(a, n - 1) / 2
  }

  function ShiftLeft(a: int, n: nat): int
    decreases n
  {
    if n == 0 then a else ShiftLeft(a, n - 1) * 2
  }

  function Exp(x: int): int {
    var z, p := Halvings(x), Reduced(x);
    var e := if z < 0 then ShiftRight(Poly(p), -z) else ShiftLeft(Poly(p), z);
    if e < 0 then 0 else e
  }

  /** Range reduction leaves an argument in (-ln 2, 0]. */
  lemma {:induction false} ReducedRange(x: int)
    ensures -LN2_Q10 < Reduced(x) <= 0
    ensures x <= 0 ==> Halvings(x) <= 0
    ensures x > 0 ==> Halvings(x) > 0
  {
  }

  lemma {:induction false} SquareOrder(a: int, b: int)
    requires 0 <= a <= b
    ensures a * a <= b * b
  {
    assert a * a <= a * b <= b * b;
  }

  /** The quadratic grows on its range, from just above one half to one. */
  lemma {:induction false} PolyOrder(p: int, q: int)
    requires -LN2_Q10 < p <= q <= 0
    ensures Poly(-709) == 511 <= Poly(p) <= Poly(q) <= Poly(0) == EXP_ONE
  {
    SquareOrder(-709 + COEFF_B, p + COEFF_B);
    SquareOrder(p + COEFF_B, q + COEFF_B);
    SquareOrder(q + COEFF_B, COEFF_B);
  }

  lemma {:induction false} ShiftOrder(a: int, b: int, n: nat)
    requires 0 <= a <= b
    ensures 0 <= ShiftRight(a, n) <= ShiftRight(b, n) <= b
  {
    if n > 0 {
      ShiftOrder(a, b, n - 1);
    }
  }

  /** For arguments up to 0 the exponential is the quadratic shifted right. */
  lemma {:induction false} ExpShifts(x: int)
    requires x <= 0
    ensures Halvings(x) <= 0 && Exp(x) == ShiftRight(Poly(Reduced(x)), -Halvings(x))
    ensures 0 <= Exp(x) <= EXP_ONE
  {
    ReducedRange(x);
    PolyOrder(Reduced(x), Reduced(x));
    ShiftOrder(0, Poly(Reduced(x)), -Halvings(x));
  }

  lemma {:induction false} ReducedStep(x: int)
    ensures Halvings(x - LN2_Q10) == Halvings(x) - 1 && Reduced(x - LN2_Q10) == Reduced(x)
  {
    assert -(x - LN2_Q10) == -x + LN2_Q10;
  }

  /** One more ln 2 below is exactly one more halving. */
  lemma {:induction false} ExpHalves(x: int)
    requires x <= 0
    ensures Exp(x - LN2_Q10) == Exp(x) / 2
  {
    ReducedStep(x);
    ExpShifts(x);
    ExpShifts(x - LN2_Q10);
  }

  lemma {:induction false} ExpOfZero()
    ensures Exp(0) == EXP_ONE
  {
    assert Poly(0) == EXP_ONE;
  }

  /** The first segment below 0, and the value just past its end: no step up at the seam. */
  lemma {:induction false} FirstSegment(x: int, y: int)
    requires -LN2_Q10 <= x <= y <= 0
    ensures Exp(x) <= Exp(y)
  {
    if x > -LN2_Q10 {
      assert Halvings(x) == 0 && Halvings(y) == 0;
      PolyOrder(x, y);
    } else {
      ExpHalves(0);
      ExpOfZero();
      ExpShifts(y);
      if y > -LN2_Q10 {
        assert Halvings(y) == 0;
        PolyOrder(y, y);
      }
    }
  }

  /** The exponential is monotone on all arguments up to 0. */
  lemma {:induction false} ExpMonotone(x: int, y: int)
    requires x <= y <= 0
    ensures Exp(x) <= Exp(y)
    decreases -x, y - x
  {
    if y < -LN2_Q10 {
      ExpMonotone(x + LN2_Q10, y + LN2_Q10);
      ExpHalves(x + LN2_Q10);
      ExpHalves(y + LN2_Q10);
    } else if -LN2_Q10 <= x {
      FirstSegment(x, y);
    } else {
      ExpMonotone(x, -LN2_Q10 - 1);
      FirstSegment(-LN2_Q10, y);
      ExpHalves(-1);
      ExpHalves(0);
      FirstSegment(-1, 0);
    }
  }

  lemma {:induction false} ExpDoubles(x: int)
    requires x > -LN2_Q10
    ensures Exp(x + LN2_Q10) == 2 * Exp(x)
  {
    ReducedStep(x + LN2_Q10);
    ReducedRange(x);
    PolyOrder(Reduced(x), Reduced(x));
    ShiftSign(Poly(Reduced(x)), Halvings(x));
  }

  lemma {:induction false} ShiftSign(a: int, n: nat)
    requires 0 <= a
    ensures 0 <= ShiftLeft(a, n)
  {
    if n > 0 {
      ShiftSign(a, n - 1);
    }
  }

  /** Just past 0 the value drops by one, and after that it is larger again. */
  lemma {:induction false} ExpPastZero(y: int)
    requires y > 0
    ensures if y == 1 then Exp(y) == EXP_ONE - 1 else Exp(y) > EXP_ONE
  {
    if y > LN2_Q10 {
      ExpPastZero(y - LN2_Q10);
      ExpDoubles(y - LN2_Q10);
    } else {
      var p := y - LN2_Q10;
      assert Halvings(y) == 1 && Reduced(y) == p;
      assert ShiftLeft(Poly(p), 0) == Poly(p);
      assert ShiftLeft(Poly(p), 1) == Poly(p) * 2;
      assert Poly(-709) == 511 && Poly(-708) == 512;
      if y > 1 {
        PolyOrder(-708, p);
      }
    }
  }

  lemma {:induction false} ExpBelowZero(x: int)
    requires x < 0
    ensures Exp(x) <= EXP_ONE - 1
  {
    ExpMonotone(x, -1);
    assert Halvings(-1) == 0 && Reduced(-1) == -1 && Poly(-1) == 1022;
  }

  /**
   * On all arguments: the exponential is monotone except from each non-negative multiple of ln 2 to
   * the number after it, where the new segment starts a little too low.
   */
  lemma {:induction false} ExpMonotoneIff(x: int, y: int)
    requires x <= y
    ensures Exp(x) <= Exp(y) <==> !(0 <= x && x % LN2_Q10 == 0 && y == x + 1)
    decreases if y > 0 then y else 0
  {
    hide Exp;
    if y <= 0 {
      ExpMonotone(x, y);
    } else if x <= 0 {
      ExpPastZero(y);
      ExpOfZero();
      if x < 0 {
        ExpBelowZero(x);
      }
    } else {
      ExpMonotoneIff(x - LN2_Q10, y - LN2_Q10);
      ExpDoubles(x - LN2_Q10);
      ExpDoubles(y - LN2_Q10);
    }
  }

  // ------------------------------------------------------------ integer_normalize

  datatype Result<T> = Ok(value: T) | NonPositiveSum

  function Sum(s: seq<int>): int {
    if s == [] then 0 else Sum(s[..|s| - 1]) + s[|s| - 1]
  }

  function Quotient(e: int, total: int): int
    requires total > 0
  {
    (e * OUTPUT_SCALE + total / 2) / total
  }

  function Normalize(exps: seq<int>): Result<seq<int>> {
    var total := Sum(exps);
    if total <= 0 then NonPositiveSum else Ok(seq(|exps|, i requires 0 <= i < |exps| => Quotient(exps[i], total)))
  }

  function Exps(logits: seq<int>): (e: seq<int>)
    ensures |e| == |logits|
  {
    seq(|logits|, i requires 0 <= i < |logits| => Exp(logits[i]))
  }

  function Softmax(logits: seq<int>): Result<seq<int>> {
    Normalize(Exps(logits))
  }

  /** A quotient is the nearest integer, halves going up: within half of one of the exact value. */
  lemma {:induction false} QuotientNear(e: int, total: int)
    requires total > 0
    ensures var q := Quotient(e, total);
            2 * (q * total - e * OUTPUT_SCALE) <= total && 2 * (e * OUTPUT_SCALE - q * total) < total
  {
    var a := e * OUTPUT_SCALE + total / 2;
    assert a == (a / total) * total + a % total;
  }

  lemma {:induction false} SumBounds(s: seq<int>, lo: int, hi: int)
    requires forall i :: 0 <= i < |s| ==> lo <= s[i] <= hi
    ensures lo * |s| <= Sum(s) <= hi * |s|
  {
    if s != [] {
      SumBounds(s[..|s| - 1], lo, hi);
    }
  }

  lemma {:induction false} SumNotNegative(s: seq<int>)
    requires forall i :: 0 <= i < |s| ==> 0 <= s[i]
    ensures 0 <= Sum(s)
  {
    if s != [] {
      SumNotNegative(s[..|s| - 1]);
    }
  }

  lemma {:induction false} MemberBelowSum(s: seq<int>, i: nat)
    requires i < |s| && forall k :: 0 <= k < |s| ==> 0 <= s[k]
    ensures s[i] <= Sum(s)
  {
    var front := s[..|s| - 1];
    SumNotNegative(front);
    if i < |s| - 1 {
      MemberBelowSum(front, i);
    }
  }

  /** Rounding errors of at most one half each add up to at most half their number. */
  lemma {:induction false} RoundedSum(exps: seq<int>, out: seq<int>, total: int)
    requires total > 0 && |out| == |exps| && forall i :: 0 <= i < |out| ==> out[i] == Quotient(exps[i], total)
    ensures 2 * (Sum(out) * total - Sum(exps) * OUTPUT_SCALE) <= |out| * total
    ensures 2 * (Sum(exps) * OUTPUT_SCALE - Sum(out) * total) <= |out| * total
  {
    if out != [] {
      var n := |out| - 1;
      RoundedSum(exps[..n], out[..n], total);
      QuotientNear(exps[n], total);
      assert Sum(out) * total == Sum(out[..n]) * total + out[n] * total;
      assert (n + 1) * total == n * total + total;
    }
  }

  /** Logits from which the largest has been subtracted. */
  ghost predicate Shifted(logits: seq<int>) {
    (forall i :: 0 <= i < |logits| ==> logits[i] <= 0) && exists i :: 0 <= i < |logits| && logits[i] == 0
  }

  /** The sum is positive, so normalisation never fails. */
  lemma {:induction false} SoftmaxDefined(logits: seq<int>)
    requires Shifted(logits)
    ensures EXP_ONE <= Sum(Exps(logits)) <= EXP_ONE * |logits| && Softmax(logits).Ok?
    ensures |Softmax(logits).value| == |logits|
    ensures forall i :: 0 <= i < |logits| ==> 0 <= Exps(logits)[i] <= EXP_ONE
  {
    var e := Exps(logits);
    forall i | 0 <= i < |e|
      ensures 0 <= e[i] <= EXP_ONE
    {
      ExpShifts(logits[i]);
    }
    var top :| 0 <= top < |logits| && logits[top] == 0;
    ExpOfZero();
    MemberBelowSum(e, top);
    SumBounds(e, 0, EXP_ONE);
  }

  /** Outputs lie between 0 and 2^24 and keep the order of the logits. */
  lemma {:induction false} SoftmaxOrder(logits: seq<int>, i: nat, j: nat)
    requires Shifted(logits) && i < |logits| && j < |logits| && logits[i] <= logits[j]
    ensures Softmax(logits).Ok? && |Softmax(logits).value| == |logits|
    ensures 0 <= Softmax(logits).value[i] <= Softmax(logits).value[j] <= OUTPUT_SCALE
  {
    SoftmaxDefined(logits);
    var e, total := Exps(logits), Sum(Exps(logits));
    ExpMonotone(logits[i], logits[j]);
    MemberBelowSum(e, j);
    DivOrder(0, e[i] * OUTPUT_SCALE + total / 2, total);
    DivOrder(e[i] * OUTPUT_SCALE + total / 2, e[j] * OUTPUT_SCALE + total / 2, total);
    DivOrder(e[j] * OUTPUT_SCALE + total / 2, total * OUTPUT_SCALE + total / 2, total);
    AtMostScale(total);
  }

  lemma {:induction false} AtMostScale(total: int)
    requires total > 0
    ensures Quotient(total, total) == OUTPUT_SCALE
  {
    assert total * OUTPUT_SCALE == OUTPUT_SCALE * total;
    DivModUnique(total * OUTPUT_SCALE + total / 2, total, OUTPUT_SCALE, total / 2);
  }

  /** The largest logit gets at least an equal share. */
  lemma {:induction false} SoftmaxTop(logits: seq<int>, top: nat)
    requires Shifted(logits) && top < |logits| && logits[top] == 0
    ensures Softmax(logits).Ok? && |Softmax(logits).value| == |logits|
    ensures Softmax(logits).value[top] >= OUTPUT_SCALE / |logits|
  {
    hide Exp;
    SoftmaxDefined(logits);
    ExpOfZero();
    TopShare(|logits|, Sum(Exps(logits)));
  }

  lemma {:induction false} TopShare(n: int, total: int)
    requires n > 0 && 0 < total <= EXP_ONE * n
    ensures Quotient(EXP_ONE, total) >= OUTPUT_SCALE / n
  {
    var share := OUTPUT_SCALE / n;
    ShareBound(share, n, total);
    DivModUnique(share * total, total, share, 0);
    DivOrder(share * total, EXP_ONE * OUTPUT_SCALE + total / 2, total);
  }

  lemma {:induction false} ShareBound(share: int, n: int, total: int)
    requires n > 0 && share == OUTPUT_SCALE / n && 0 < total <= EXP_ONE * n
    ensures share * total <= EXP_ONE * OUTPUT_SCALE
  {
    assert share >= 0 && share * n <= OUTPUT_SCALE;
    assert share * total <= share * (EXP_ONE * n);
    assert share * (EXP_ONE * n) == EXP_ONE * (share * n);
  }

  /** The outputs add up to 2^24 to within half their number. */
  lemma {:induction false} SoftmaxSum(logits: seq<int>)
    requires Shifted(logits)
    ensures Softmax(logits).Ok?
    ensures -|logits| <= 2 * (Sum(Softmax(logits).value) - OUTPUT_SCALE) <= |logits|
  {
    hide Exp, Sum;
    SoftmaxDefined(logits);
    var e, out := Exps(logits), Softmax(logits).value;
    var total, d := Sum(e), Sum(out) - OUTPUT_SCALE;
    RoundedSum(e, out, total);
    assert Sum(out) * total - total * OUTPUT_SCALE == d * total;
    Cancel(2 * d, |logits|, total);
    Cancel(-2 * d, |logits|, total);
  }

  lemma {:induction false} Cancel(a: int, b: int, m: int)
    requires m > 0 && a * m <= b * m
    ensures a <= b
  {
    if b < a {
      MulOrder(b, a, m);
    }
  }
}
