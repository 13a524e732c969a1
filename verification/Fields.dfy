/** Cutting a number into bit fields of given widths, lowest field first, and putting it together again. */
module Fields {
  import opened Arithmetic

  /** The bits below field `k`. */
  function Offset(widths: seq<nat>, k: nat): nat
    requires k <= |widths|
  {
    if k == 0 then 0 else Offset(widths, k - 1) + widths[k - 1]
  }

  function Field(widths: seq<nat>, a: nat, k: nat): nat
    requires k < |widths|
  {
    (a / Pow2(Offset(widths, k))) % Pow2(widths[k])
  }

  /** The number whose first `k` fields are the given ones. */
  function Assemble(widths: seq<nat>, f: seq<nat>, k: nat): nat
    requires k <= |widths| == |f|
  {
    if k == 0 then 0 else Assemble(widths, f, k - 1) + Pow2(Offset(widths, k - 1)) * f[k - 1]
  }

  function Capacity(widths: seq<nat>): nat {
    Pow2(Offset(widths, |widths|))
  }

  ghost predicate Fit(widths: seq<nat>, f: seq<nat>) {
    |f| == |widths| && forall k :: 0 <= k < |f| ==> f[k] < Pow2(widths[k])
  }

  lemma {:induction false} FieldFits(widths: seq<nat>, a: nat, k: nat)
    requires k < |widths|
    ensures Field(widths, a, k) < Pow2(widths[k])
  {
  }

  lemma {:induction false} OffsetMonotone(widths: seq<nat>, j: nat, k: nat)
    requires j <= k <= |widths|
    ensures Offset(widths, j) <= Offset(widths, k)
  {
    if j < k {
      OffsetMonotone(widths, j, k - 1);
    }
  }

  /** The fields cut out of a number make up its lower part. */
  lemma {:induction false} AssembleFields(widths: seq<nat>, a: nat, f: seq<nat>, k: nat)
    requires k <= |widths| == |f| && forall j :: 0 <= j < k ==> f[j] == Field(widths, a, j)
    ensures Assemble(widths, f, k) == a % Pow2(Offset(widths, k))
  {
    if k == 0 {
      assert a % 1 == 0;
    } else {
      AssembleFields(widths, a, f, k - 1);
      var x, y := Pow2(Offset(widths, k - 1)), Pow2(widths[k - 1]);
      DivDiv(a, x, y);
      Pow2Add(Offset(widths, k - 1), widths[k - 1]);
    }
  }

  /** So a number within the capacity is recovered from its fields. */
  lemma {:induction false} CutAndAssemble(widths: seq<nat>, a: nat, f: seq<nat>)
    requires |widths| == |f| && forall j :: 0 <= j < |f| ==> f[j] == Field(widths, a, j)
    requires a < Capacity(widths)
    ensures Assemble(widths, f, |f|) == a
  {
    AssembleFields(widths, a, f, |f|);
    DivModUnique(a, Capacity(widths), 0, a);
  }

  lemma {:induction false} AssembleBound(widths: seq<nat>, f: seq<nat>, k: nat)
    requires k <= |f| && Fit(widths, f)
    ensures Assemble(widths, f, k) < Pow2(Offset(widths, k))
  {
    if k > 0 {
      AssembleBound(widths, f, k - 1);
      Pow2Add(Offset(widths, k - 1), widths[k - 1]);
      MulBound(Assemble(widths, f, k - 1), f[k - 1], Pow2(Offset(widths, k - 1)), Pow2(widths[k - 1]));
    }
  }

  /** A multiple of 2^(i + w + rest) on top does not change the `w` bits at `i`. */
  lemma {:induction false} TopIgnored(low: nat, top: nat, i: nat, w: nat, rest: nat)
    ensures ((low + Pow2(i + w + rest) * top) / Pow2(i)) % Pow2(w) == (low / Pow2(i)) % Pow2(w)
  {
    Pow2Add(i + w, rest);
    Pow2Add(i, w);
    DigitIgnoresTop(low, top, Pow2(i), Pow2(w), Pow2(rest));
  }

  /** And the fields put together are the ones cut out again. */
  lemma {:induction false} AssembleAndCut(widths: seq<nat>, f: seq<nat>, k: nat, j: nat)
    requires j < k <= |f| && Fit(widths, f)
    ensures Field(widths, Assemble(widths, f, k), j) == f[j]
  {
    hide Pow2, Field;
    if j == k - 1 {
      LastField(widths, f, k);
    } else {
      AssembleAndCut(widths, f, k - 1, j);
      LowerField(widths, f, k, j);
    }
  }

  lemma {:induction false} LastField(widths: seq<nat>, f: seq<nat>, k: nat)
    requires 0 < k <= |f| && Fit(widths, f)
    ensures Field(widths, Assemble(widths, f, k), k - 1) == f[k - 1]
  {
    var low, x := Assemble(widths, f, k - 1), Pow2(Offset(widths, k - 1));
    AssembleBound(widths, f, k - 1);
    assert low + x * f[k - 1] == f[k - 1] * x + low;
    DivModUnique(low + x * f[k - 1], x, f[k - 1], low);
    DivModUnique(f[k - 1], Pow2(widths[k - 1]), 0, f[k - 1]);
  }

  lemma {:induction false} LowerField(widths: seq<nat>, f: seq<nat>, k: nat, j: nat)
    requires j + 1 < k <= |f| && Fit(widths, f)
    ensures Field(widths, Assemble(widths, f, k), j) == Field(widths, Assemble(widths, f, k - 1), j)
  {
    hide Pow2, Assemble;
    OffsetMonotone(widths, j + 1, k - 1);
    var rest: nat := Offset(widths, k - 1) - Offset(widths, j + 1);
    var low := Assemble(widths, f, k - 1);
    AssembleLast(widths, f, k);
    TopIgnored(low, f[k - 1], Offset(widths, j), widths[j], rest);
    assert Offset(widths, j) + widths[j] + rest == Offset(widths, k - 1);
  }

  lemma {:induction false} AssembleLast(widths: seq<nat>, f: seq<nat>, k: nat)
    requires 0 < k <= |widths| == |f|
    ensures Assemble(widths, f, k) == Assemble(widths, f, k - 1) + Pow2(Offset(widths, k - 1)) * f[k - 1]
  {
  }

  /** Cutting off one more field leaves the next quotient. */
  lemma {:induction false} NextQuotient(widths: seq<nat>, a: nat, k: nat)
    requires k < |widths|
    ensures (a / Pow2(Offset(widths, k))) / Pow2(widths[k]) == a / Pow2(Offset(widths, k + 1))
  {
    Pow2Add(Offset(widths, k), widths[k]);
    DivDiv(a, Pow2(Offset(widths, k)), Pow2(widths[k]));
  }

  /** Within the capacity, the last field is all that is left. */
  lemma {:induction false} TopField(widths: seq<nat>, a: nat, k: nat)
    requires k + 1 == |widths| && a < Capacity(widths)
    ensures Field(widths, a, k) == a / Pow2(Offset(widths, k))
  {
    var x, y := Pow2(Offset(widths, k)), Pow2(widths[k]);
    Pow2Add(Offset(widths, k), widths[k]);
    assert x * y == y * x;
    DivLess(a, x, y);
    DivModUnique(a / x, y, 0, a / x);
  }
}
