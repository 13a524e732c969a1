/**
 * Where the mappers (ramulator2/src/addr_mapper/impl/linear_mappers.cpp) put the bits of an address,
 * stated as sums of components times the sizes of what lies below them.
 */
module Layout {
  import opened Arithmetic
  import opened Fields
  import opened Mappers

  /** The number of vectors with these widths. */
  function Span(bits: seq<nat>): (s: nat)
    ensures s >= 1
  {
    if bits == [] then 1
    else
      var rest := Span(bits[1..]);
      Positive(Pow2(bits[0]), rest);
      Pow2(bits[0]) * rest
  }

  lemma {:induction false} Positive(x: int, y: int)
    requires x >= 1 && y >= 1
    ensures x * y >= 1
  {
    assert x * y >= x * 1;
  }

  lemma {:induction false} Associate(x: int, y: int, z: int)
    ensures x * (y * z) == (x * y) * z
  {
  }

  lemma {:induction false} Distribute(x: int, y: int, z: int)
    ensures x * (y + z) == x * y + x * z
  {
  }

  /** The first component on top: each counts once for every combination of the later ones. */
  function HighFirst(bits: seq<nat>, v: seq<nat>): nat
    requires |v| == |bits|
  {
    if bits == [] then 0 else v[0] * Span(bits[1..]) + HighFirst(bits[1..], v[1..])
  }

  /** The first component lowest. */
  function LowFirst(bits: seq<nat>, v: seq<nat>): nat
    requires |v| == |bits|
  {
    if bits == [] then 0 else v[0] + Pow2(bits[0]) * LowFirst(bits[1..], v[1..])
  }

  // ------------------------------------------------------------ the two sums

  lemma {:induction false} SpanSnoc(bits: seq<nat>, w: nat)
    ensures Span(bits + [w]) == Span(bits) * Pow2(w)
  {
    if bits == [] {
      assert ([] + [w])[1..] == [] && Span([w][1..]) == 1;
    } else {
      SpanSnoc(bits[1..], w);
      assert (bits + [w])[1..] == bits[1..] + [w];
      Associate(Pow2(bits[0]), Span(bits[1..]), Pow2(w));
    }
  }

  lemma {:induction false} LowFirstSnoc(bits: seq<nat>, v: seq<nat>, w: nat, x: nat)
    requires |v| == |bits|
    ensures LowFirst(bits + [w], v + [x]) == LowFirst(bits, v) + Span(bits) * x
  {
    if bits == [] {
      assert ([] + [w])[1..] == [] && ([] + [x])[1..] == [];
      assert LowFirst([w][1..], [x][1..]) == 0;
    } else {
      LowFirstSnoc(bits[1..], v[1..], w, x);
      assert (bits + [w])[1..] == bits[1..] + [w] && (v + [x])[1..] == v[1..] + [x];
      Distribute(Pow2(bits[0]), LowFirst(bits[1..], v[1..]), Span(bits[1..]) * x);
      Associate(Pow2(bits[0]), Span(bits[1..]), x);
    }
  }

  function Reversed(s: seq<nat>): (r: seq<nat>)
    ensures |r| == |s|
  {
    if s == [] then [] else Reversed(s[1..]) + [s[0]]
  }

  lemma {:induction false} ReversedAt(s: seq<nat>, k: nat)
    requires k < |s|
    ensures Reversed(s)[k] == s[|s| - 1 - k]
  {
    if k < |s| - 1 {
      ReversedAt(s[1..], k);
    }
  }

  lemma {:induction false} SpanReversed(bits: seq<nat>)
    ensures Span(Reversed(bits)) == Span(bits)
  {
    hide Pow2;
    if bits != [] {
      SpanReversed(bits[1..]);
      SpanSnoc(Reversed(bits[1..]), bits[0]);
      assert Span(bits[1..]) * Pow2(bits[0]) == Pow2(bits[0]) * Span(bits[1..]);
    }
  }

  lemma {:induction false} HighIsLowReversed(bits: seq<nat>, v: seq<nat>)
    requires |v| == |bits|
    ensures HighFirst(bits, v) == LowFirst(Reversed(bits), Reversed(v))
  {
    if bits != [] {
      HighIsLowReversed(bits[1..], v[1..]);
      LowFirstSnoc(Reversed(bits[1..]), Reversed(v[1..]), bits[0], v[0]);
      SpanReversed(bits[1..]);
    }
  }

  // ------------------------------------------------------------ fields put together

  lemma {:induction false} OffsetSpan(w: seq<nat>, k: nat)
    requires k <= |w|
    ensures Pow2(Offset(w, k)) == Span(w[..k])
  {
    if k > 0 {
      OffsetSpan(w, k - 1);
      Pow2Add(Offset(w, k - 1), w[k - 1]);
      SpanSnoc(w[..k - 1], w[k - 1]);
      assert w[..k] == w[..k - 1] + [w[k - 1]];
    }
  }

  lemma {:induction false} AssembleIsLowFirst(w: seq<nat>, f: seq<nat>, k: nat)
    requires k <= |w| == |f|
    ensures Assemble(w, f, k) == LowFirst(w[..k], f[..k])
  {
    if k > 0 {
      AssembleIsLowFirst(w, f, k - 1);
      OffsetSpan(w, k - 1);
      LowFirstSnoc(w[..k - 1], f[..k - 1], w[k - 1], f[k - 1]);
      assert w[..k] == w[..k - 1] + [w[k - 1]] && f[..k] == f[..k - 1] + [f[k - 1]];
    }
  }

  /** The components cut out in some order, put together in that order, are the address within the capacity. */
  lemma {:induction false} SlicesLayout(bits: seq<nat>, order: seq<nat>, pos: seq<nat>, a: nat)
    requires IsOrder(order, pos) && |order| == |bits|
    ensures Size(bits, order) == Span(Widths(bits, order))
    ensures LowFirst(Widths(bits, order), Widths(VecOf(bits, order, pos, a), order)) == a % Size(bits, order)
  {
    hide Pow2, Field, Offset, LowFirst, Span, Assemble;
    var v, w := VecOf(bits, order, pos, a), Widths(bits, order);
    var f := Widths(v, order);
    forall j | 0 <= j < |f|
      ensures f[j] == Field(w, a, j)
    {
      assert pos[order[j]] == j;
    }
    AssembleFields(w, a, f, |f|);
    AssembleIsLowFirst(w, f, |f|);
    OffsetSpan(w, |w|);
    assert w[..|w|] == w && f[..|f|] == f;
  }

  /** `AddrOf` is the same sum. */
  lemma {:induction false} AddrIsLowFirst(bits: seq<nat>, order: seq<nat>, pos: seq<nat>, v: seq<nat>)
    requires IsOrder(order, pos) && |order| == |bits| == |v|
    ensures AddrOf(bits, order, v) == LowFirst(Widths(bits, order), Widths(v, order))
  {
    var w, f := Widths(bits, order), Widths(v, order);
    AssembleIsLowFirst(w, f, |f|);
    assert w[..|w|] == w && f[..|f|] == f;
  }

  // ------------------------------------------------------------ ChRaBaRoCo

  lemma {:induction false} ChReverses(s: seq<nat>)
    ensures Widths(s, ChOrder(|s|)) == Reversed(s)
  {
    forall k | 0 <= k < |s|
      ensures Widths(s, ChOrder(|s|))[k] == Reversed(s)[k]
    {
      ReversedAt(s, k);
    }
  }

  /** The channel is the top field and the column the lowest: the levels lie in order, the first on top. */
  lemma {:induction false} ChLayout(bits: seq<nat>, a: nat)
    ensures HighFirst(bits, ChVec(bits, a)) == a % Span(bits)
    ensures Size(bits, ChOrder(|bits|)) == Span(bits)
  {
    ChOrderOk(|bits|);
    SlicesLayout(bits, ChOrder(|bits|), ChOrder(|bits|), a);
    ChReverses(bits);
    ChReverses(ChVec(bits, a));
    SpanReversed(bits);
    HighIsLowReversed(bits, ChVec(bits, a));
  }

  lemma {:induction false} HighFirstLast(bits: seq<nat>, v: seq<nat>, d: nat)
    requires |v| == |bits| > 0
    ensures HighFirst(bits, v[|v| - 1 := v[|v| - 1] + d]) == HighFirst(bits, v) + d
  {
    var u := v[|v| - 1 := v[|v| - 1] + d];
    if |v| == 1 {
      assert Span(bits[1..]) == 1;
    } else {
      HighFirstLast(bits[1..], v[1..], d);
      assert u[1..] == v[1..][|v| - 2 := v[1..][|v| - 2] + d];
    }
  }

  /** The next transaction is in the next column of the same row, unless the column was the last. */
  lemma {:induction false} ChNextColumn(bits: seq<nat>, a: nat)
    requires bits != [] && a < Span(bits)
    requires ChVec(bits, a)[|bits| - 1] + 1 < Pow2(bits[|bits| - 1])
    ensures ChVec(bits, a + 1) == ChVec(bits, a)[|bits| - 1 := ChVec(bits, a)[|bits| - 1] + 1]
  {
    hide ChVec, Span, HighFirst;
    var n, v := |bits|, ChVec(bits, a);
    var u := v[n - 1 := v[n - 1] + 1];
    ChOrderOk(n);
    ChLayout(bits, a);
    ChRoundTrip(bits, a, u);
    AddrIsLowFirst(bits, ChOrder(n), ChOrder(n), u);
    ChReverses(bits);
    ChReverses(u);
    HighIsLowReversed(bits, u);
    HighFirstLast(bits, v, 1);
    SmallRemainder(a, Span(bits));
  }

  // ------------------------------------------------------------ RoBaRaCoCh

  /** The channel, the last level and the levels between. */
  function ChannelColumnRest(s: seq<nat>): (r: seq<nat>)
    requires |s| >= 2
    ensures |r| == |s|
  {
    [s[0], s[|s| - 1]] + s[1..|s| - 1]
  }

  lemma {:induction false} RoReorders(s: seq<nat>)
    requires |s| >= 2
    ensures Widths(s, RoOrder(|s|)) == ChannelColumnRest(s)
  {
  }

  lemma {:induction false} SpanSwap(a: nat, b: nat, rest: seq<nat>)
    ensures Span([a, b] + rest) == Pow2(a) * Pow2(b) * Span(rest)
  {
    hide Pow2;
    assert ([a, b] + rest)[1..] == [b] + rest && ([b] + rest)[1..] == rest;
    Associate(Pow2(a), Pow2(b), Span(rest));
  }

  /** The channel is the lowest field, then comes the column, then the other levels with the row on top. */
  lemma {:induction false} RoLayout(bits: seq<nat>, a: nat)
    requires |bits| >= 2
    ensures LowFirst(ChannelColumnRest(bits), ChannelColumnRest(RoVec(bits, a))) == a % Span(bits)
    ensures Size(bits, RoOrder(|bits|)) == Span(bits)
  {
    hide VecOf, LowFirst, Size;
    var n := |bits|;
    RoOrderOk(n);
    SlicesLayout(bits, RoOrder(n), RoPos(n), a);
    RoReorders(bits);
    RoReorders(RoVec(bits, a));
    RoSpan(bits);
  }

  lemma {:induction false} RoSpan(bits: seq<nat>)
    requires |bits| >= 2
    ensures Span(ChannelColumnRest(bits)) == Span(bits)
  {
    hide Pow2;
    var n, rest := |bits|, bits[1..|bits| - 1];
    SpanSwap(bits[0], bits[n - 1], rest);
    SpanSnoc(rest, bits[n - 1]);
    assert bits[1..] == rest + [bits[n - 1]];
    assert Span(rest) * Pow2(bits[n - 1]) == Pow2(bits[n - 1]) * Span(rest);
    Associate(Pow2(bits[0]), Pow2(bits[n - 1]), Span(rest));
  }

  /** The next transaction is in the next channel, unless the channel was the last. */
  lemma {:induction false} RoNextChannel(bits: seq<nat>, a: nat)
    requires |bits| >= 2 && a < Span(bits) && RoVec(bits, a)[0] + 1 < Pow2(bits[0])
    ensures RoVec(bits, a + 1) == RoVec(bits, a)[0 := RoVec(bits, a)[0] + 1]
  {
    hide RoVec, Span, Pow2;
    var n, v := |bits|, RoVec(bits, a);
    var u := v[0 := v[0] + 1];
    RoOrderOk(n);
    RoLayout(bits, a);
    RoRoundTrip(bits, a, u);
    AddrIsLowFirst(bits, RoOrder(n), RoPos(n), u);
    RoReorders(bits);
    RoReorders(u);
    assert u[1..n - 1] == v[1..n - 1];
    assert ChannelColumnRest(u)[1..] == ChannelColumnRest(v)[1..];
    SmallRemainder(a, Span(bits));
  }

  // ------------------------------------------------------------ MOP4CLXOR

  /**
   * Before the exclusive or: the two low bits of the column lowest, then the levels above the row,
   * then the other bits of the column, and everything left is the row.
   */
  lemma {:induction false} MopLayout(bits: seq<nat>, a: nat)
    requires MopOk(bits)
    ensures var n, v := |bits|, MopCut(bits, a);
            LowFirst([2] + bits[..n - 2] + [bits[n - 1] - 2, bits[n - 2]],
                     [v[n - 1] % 4] + v[..n - 2] + [v[n - 1] / 4, v[n - 2]]) == a
  {
    hide Pow2, LowFirst, Field, Assemble;
    var n := |bits|;
    MopOrderOk(n);
    FourIsPow();
    var w := Widths(MopBits(bits), MopOrder(n));
    var top := a / Pow2(Offset(w, n));
    var e := VecOf(MopBits(bits), MopOrder(n), MopPos(n), a)[n - 2 := top];
    var f := Widths(e, MopOrder(n));
    forall j | 0 <= j < n
      ensures f[j] == Field(w, a, j)
    {
      assert MopPos(n)[MopOrder(n)[j]] == j && MopOrder(n)[j] != n - 2;
    }
    AssembleFields(w, a, f, n);
    AssembleLast(w, f, n + 1);
    DivMod(a, Pow2(Offset(w, n)));
    AssembleIsLowFirst(w, f, n + 1);
    assert w[..n + 1] == w && f[..n + 1] == f;
    assert e[n - 1] == Field(w, a, 0) < 4 by {
      FieldFits(w, a, 0);
      assert w[0] == 2;
    }
    MergedColumn(bits, e);
  }

  lemma {:induction false} FourIsPow()
    ensures Pow2(2) == 4
  {
    assert Pow2(1) == 2;
  }

  lemma {:induction false} MergedColumn(bits: seq<nat>, e: seq<nat>)
    requires MopOk(bits) && |e| == |bits| + 1 && e[|bits| - 1] < 4
    ensures IsOrder(MopOrder(|bits|), MopPos(|bits|))
    ensures var n, v := |bits|, Merge(e);
            && Widths(MopBits(bits), MopOrder(n)) == [2] + bits[..n - 2] + [bits[n - 1] - 2, bits[n - 2]]
            && Widths(e, MopOrder(n)) == [v[n - 1] % 4] + v[..n - 2] + [v[n - 1] / 4, v[n - 2]]
  {
    var n := |bits|;
    MopOrderOk(n);
    DivModUnique(e[n - 1] + 4 * e[n], 4, e[n], e[n - 1]);
  }

  // ------------------------------------------------------------ the exclusive or, bit by bit

  function Bit(a: nat, k: nat): nat {
    (a / Pow2(k)) % 2
  }

  lemma {:induction false} BitStep(a: nat, k: nat)
    ensures Bit(a, 0) == a % 2 && Bit(a, k + 1) == Bit(a / 2, k)
  {
    DivDiv(a, 2, Pow2(k));
    assert a / 1 == a;
  }

  /** Each bit of the exclusive or is the sum of the two bits modulo two. */
  lemma {:induction false} XorBits(a: nat, b: nat, k: nat)
    ensures Bit(Xor(a, b), k) == (Bit(a, k) + Bit(b, k)) % 2
    decreases k
  {
    hide Bit, Xor;
    XorStep(a, b);
    if k == 0 {
      BitStep(a, 0);
      BitStep(b, 0);
      BitStep(Xor(a, b), 0);
    } else {
      BitStep(a, k - 1);
      BitStep(b, k - 1);
      BitStep(Xor(a, b), k - 1);
      XorBits(a / 2, b / 2, k - 1);
    }
  }

  lemma {:induction false} LowBits(a: nat, w: nat, k: nat)
    ensures Bit(a % Pow2(w), k) == if k < w then Bit(a, k) else 0
  {
    hide Bit;
    var r, q := a % Pow2(w), a / Pow2(w);
    DivMod(a, Pow2(w));
    if k < w {
      var rest: nat := w - k - 1;
      assert Pow2(1) == 2;
      TopIgnored(r, q, k, 1, rest);
      assert k + 1 + rest == w;
      assert r + Pow2(w) * q == a;
      BitAt(a, k);
      BitAt(r, k);
    } else {
      BelowPow(r, w, k);
    }
  }

  lemma {:induction false} BitAt(a: nat, k: nat)
    ensures Bit(a, k) == (a / Pow2(k)) % 2
  {
  }

  lemma {:induction false} BelowPow(r: nat, w: nat, k: nat)
    requires w <= k && r < Pow2(w)
    ensures Bit(r, k) == 0
  {
    if w < k {
      Pow2Monotone(w, k);
    }
    DivModUnique(r, Pow2(k), 0, r);
  }

  lemma {:induction false} HighBits(a: nat, o: nat, k: nat)
    ensures Bit(High(a, o), k) == Bit(a, o + k)
  {
    DivDiv(a, Pow2(o), Pow2(k));
    Pow2Add(o, k);
  }

  /**
   * Every level but the column is combined bit by bit with its own share of the column's bits: the
   * shares follow one another, the first level's lowest. Bits beyond a level's width stay.
   */
  lemma {:induction false} MopBitLaw(bits: seq<nat>, a: nat, l: nat, k: nat)
    requires MopOk(bits) && l < |bits|
    ensures |MopVec(bits, a)| == |bits|
    ensures var v, col := MopCut(bits, a), MopCut(bits, a)[|bits| - 1];
            Bit(MopVec(bits, a)[l], k) ==
            if l < |bits| - 1 && k < bits[l] then (Bit(v[l], k) + Bit(col, Offset(bits, l) + k)) % 2 else Bit(v[l], k)
  {
    hide Bit, Xor, MopCut, Pow2, Offset;
    var v, col := MopCut(bits, a), MopCut(bits, a)[|bits| - 1];
    BitAt(v[l], k);
    if l < |bits| - 1 {
      var share := High(col, Offset(bits, l));
      XorBits(v[l], share % Pow2(bits[l]), k);
      LowBits(share, bits[l], k);
      HighBits(col, Offset(bits, l), k);
    }
  }

  /** The shares of the levels are the low bits of the column, in order. */
  lemma {:induction false} MaskLayout(bits: seq<nat>, col: nat, masks: seq<nat>)
    requires bits != [] && |masks| == |bits| - 1
    requires forall l :: 0 <= l < |masks| ==> masks[l] == Mask(bits, col, l)
    ensures LowFirst(bits[..|masks|], masks) == col % Span(bits[..|masks|])
  {
    var n, f := |masks|, masks + [0];
    AssembleFields(bits, col, f, n);
    AssembleIsLowFirst(bits, f, n);
    OffsetSpan(bits, n);
    assert f[..n] == masks;
  }
}
