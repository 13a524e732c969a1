/** Facts about division, remainders and powers of two that the mappers and the balancer use. */
module Arithmetic {
  function Pow2(n: nat): (p: nat)
    ensures p >= 1
  {
    if n == 0 then 1 else 2 * Pow2(n - 1)
  }

  /** The number without its lowest `n` bits. */
  function High(a: nat, n: nat): nat {
    QuotientNat(a, Pow2(n));
    a / Pow2(n)
  }

  /** The lowest `n` bits of the number. */
  function Low(a: nat, n: nat): nat {
    a % Pow2(n)
  }

  lemma {:induction false} QuotientNat(a: nat, m: nat)
    requires m > 0
    ensures a / m >= 0
  {
  }

  lemma {:induction false} MulOrder(a: int, b: int, m: nat)
    requires a < b
    ensures a * m + m <= b * m
  {
    assert (b - a - 1) * m >= 0;
    assert (b - a - 1) * m == b * m - a * m - m;
  }

  /** Quotient and remainder are unique. */
  lemma {:induction false} DivModUnique(a: int, m: nat, q: int, r: int)
    requires m > 0 && a == q * m + r && 0 <= r < m
    ensures a / m == q && a % m == r
  {
    DivMod(a, m);
    if q < a / m {
      MulOrder(q, a / m, m);
    } else if a / m < q {
      MulOrder(a / m, q, m);
    }
  }

  lemma {:induction false} DivMod(a: int, m: nat)
    requires m > 0
    ensures a == (a / m) * m + a % m && 0 <= a % m < m
  {
  }

  lemma {:induction false} NextRemainder(n: nat, m: nat)
    requires m > 0
    ensures (n + 1) % m == (if n % m + 1 < m then n % m + 1 else 0)
    ensures (n + 1) / m == n / m + if (n + 1) % m == 0 then 1 else 0
  {
    DivMod(n, m);
    if n % m + 1 < m {
      DivModUnique(n + 1, m, n / m, n % m + 1);
    } else {
      assert (n / m + 1) * m == (n / m) * m + m;
      DivModUnique(n + 1, m, n / m + 1, 0);
    }
  }

  lemma {:induction false} SmallRemainder(n: nat, m: nat)
    requires m > 0 && n <= m
    ensures n % m == if n == m then 0 else n
  {
    if n < m {
      DivModUnique(n, m, 0, n);
    } else {
      DivModUnique(n, m, 1, 0);
    }
  }

  lemma {:induction false} DivLess(a: nat, m: nat, k: nat)
    requires m > 0 && a < k * m
    ensures a / m < k
  {
    DivMod(a, m);
    if k <= a / m {
      if k < a / m {
        MulOrder(k, a / m, m);
      }
    }
  }

  lemma {:induction false} Pow2Add(a: nat, b: nat)
    ensures Pow2(a + b) == Pow2(a) * Pow2(b)
  {
    if a > 0 {
      Pow2Add(a - 1, b);
      assert Pow2(a) * Pow2(b) == 2 * (Pow2(a - 1) * Pow2(b));
    }
  }

  lemma {:induction false} MulBound(a: nat, b: nat, x: nat, y: nat)
    requires a < x && b < y
    ensures a + x * b < x * y
  {
    MulOrder(b, y, x);
    assert x * b == b * x && x * y == y * x;
  }

  lemma {:induction false} DivOrder(a: int, b: int, m: nat)
    requires m > 0 && a <= b
    ensures a / m <= b / m
  {
    DivMod(a, m);
    DivMod(b, m);
    if b / m < a / m {
      MulOrder(b / m, a / m, m);
    }
  }

  /** Adding a multiple of the divisor. */
  lemma {:induction false} AddMultiple(a: nat, m: nat, c: nat)
    requires m > 0
    ensures (a + c * m) / m == a / m + c && (a + c * m) % m == a % m
  {
    DivMod(a, m);
    assert (a / m + c) * m == (a / m) * m + c * m;
    DivModUnique(a + c * m, m, a / m + c, a % m);
  }

  lemma {:induction false} MulRegroup(x: nat, y: nat, z: nat, t: nat)
    ensures ((x * y) * z) * t == ((z * t) * y) * x
  {
    assert ((x * y) * z) * t == (x * y) * (z * t);
    assert (x * y) * (z * t) == ((z * t) * y) * x;
  }

  /** The digit of weight x below y is not changed by adding a multiple of x * y * z. */
  lemma {:induction false} DigitIgnoresTop(low: nat, top: nat, x: nat, y: nat, z: nat)
    requires x > 0 && y > 0
    ensures ((low + ((x * y) * z) * top) / x) % y == (low / x) % y
  {
    MulRegroup(x, y, z, top);
    AddMultiple(low, x, (z * top) * y);
    AddMultiple(low / x, y, z * top);
  }

  /** Dividing in two steps, and what the first step leaves. */
  lemma {:induction false} DivDiv(a: nat, x: nat, y: nat)
    requires x > 0 && y > 0
    ensures x * y > 0 && (a / x) / y == a / (x * y)
    ensures a % (x * y) == a % x + x * ((a / x) % y)
  {
    var q, r := a / x, a % x;
    var q2, r2 := q / y, q % y;
    DivMod(a, x);
    DivMod(q, y);
    MulBound(r, r2, x, y);
    assert (q2 * y + r2) * x == q2 * (x * y) + x * r2;
    DivModUnique(a, x * y, q2, r + x * r2);
  }

  /** The bitwise exclusive or of two numbers. */
  function Xor(a: nat, b: nat): nat
    decreases a + b
  {
    if a == 0 && b == 0 then 0 else (a % 2 + b % 2) % 2 + 2 * Xor(a / 2, b / 2)
  }

  lemma {:induction false} XorStep(a: nat, b: nat)
    ensures Xor(a, b) / 2 == Xor(a / 2, b / 2) && Xor(a, b) % 2 == (a % 2 + b % 2) % 2
  {
  }

  lemma {:induction false} XorZeros()
    ensures Xor(0, 0) == 0
  {
  }

  /** Combining twice with the same number gives back the first. */
  lemma {:induction false} XorTwice(a: nat, b: nat)
    ensures Xor(Xor(a, b), b) == a
    decreases a + b
  {
    hide Xor;
    if a == 0 && b == 0 {
      XorZeros();
    } else {
      XorStep(a, b);
      XorStep(Xor(a, b), b);
      XorTwice(a / 2, b / 2);
    }
  }

  lemma {:induction false} XorZero(a: nat)
    ensures Xor(a, 0) == a
  {
    if a != 0 {
      XorZero(a / 2);
    }
  }

  lemma {:induction false} XorBound(a: nat, b: nat, n: nat)
    requires a < Pow2(n) && b < Pow2(n)
    ensures Xor(a, b) < Pow2(n)
  {
    if n > 0 {
      XorBound(a / 2, b / 2, n - 1);
    }
  }
}
