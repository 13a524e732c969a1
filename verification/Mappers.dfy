/**
 * Linear and XOR address mappers (ramulator2/src/addr_mapper/impl/linear_mappers.cpp) and the bit
 * helpers they rest on (ramulator2/src/base/utils.h).
 */
module Mappers {
  import opened Wrappers
  import opened Arithmetic
  import opened Fields

  // ------------------------------------------------------------ base/utils.h

  method CalcLog2(val: nat) returns (n: nat)
    ensures val > 0 ==> Pow2(n) <= val < Pow2(n + 1)
    ensures val == 0 ==> n == 0
  {
    n := 0;
    var v := val / 2;
    while v != 0
      invariant val == 0 ==> n == 0 && v == 0
      invariant val > 0 ==> Pow2(n) <= val && v == val / Pow2(n + 1)
      decreases v
    {
      DivDiv(val, Pow2(n + 1), 2);
      Quotient(val, Pow2(n + 1));
      n := n + 1;
      v := v / 2;
    }
    if val > 0 {
      DivMod(val, Pow2(n + 1));
    }
  }

  lemma {:induction false} Quotient(a: nat, m: nat)
    requires m > 0 && a / m != 0
    ensures m <= a
  {
    DivMod(a, m);
    assert (a / m - 1) * m >= 0;
  }

  lemma {:induction false} Pow2Monotone(a: nat, b: nat)
    requires a < b
    ensures 2 * Pow2(a) <= Pow2(b)
  {
    if a + 1 < b {
      Pow2Monotone(a, b - 1);
    }
  }

  /** A power of two has exactly its exponent as logarithm. */
  lemma {:induction false} Log2OfPower(n: nat, m: nat)
    requires Pow2(n) <= Pow2(m) < Pow2(n + 1)
    ensures n == m
  {
    if n < m {
      Pow2Monotone(n, m);
    } else if m < n {
      Pow2Monotone(m, n);
    }
  }

  method SliceLowerBits(addr: nat, n: nat) returns (bits: nat, rest: nat)
    ensures addr == rest * Pow2(n) + bits && bits < Pow2(n)
    ensures bits == Low(addr, n) && rest == High(addr, n)
  {
    hide Pow2;
    DivMod(addr, Pow2(n));
    bits := Low(addr, n);
    rest := High(addr, n);
  }

  // ------------------------------------------------------------ mapping by slices

  /** `order[k]` is the level that gets the k-th slice, and `pos` is its inverse. */
  ghost predicate IsOrder(order: seq<nat>, pos: seq<nat>) {
    && |order| == |pos|
    && (forall k :: 0 <= k < |order| ==> order[k] < |order| && pos[order[k]] == k)
    && (forall l :: 0 <= l < |pos| ==> pos[l] < |pos| && order[pos[l]] == l)
  }

  function Widths(bits: seq<nat>, order: seq<nat>): (w: seq<nat>)
    requires forall k :: 0 <= k < |order| ==> order[k] < |bits|
    ensures |w| == |order|
  {
    seq(|order|, k requires 0 <= k < |order| => bits[order[k]])
  }

  /** The components an address is cut into. */
  ghost function VecOf(bits: seq<nat>, order: seq<nat>, pos: seq<nat>, a: nat): (v: seq<nat>)
    requires IsOrder(order, pos) && |order| == |bits|
    ensures |v| == |bits|
  {
    seq(|bits|, l requires 0 <= l < |bits| => Field(Widths(bits, order), a, pos[l]))
  }

  /** The address that components come from. */
  ghost function AddrOf(bits: seq<nat>, order: seq<nat>, v: seq<nat>): nat
    requires |order| == |bits| == |v| && forall k :: 0 <= k < |order| ==> order[k] < |bits|
  {
    Assemble(Widths(bits, order), Widths(v, order), |v|)
  }

  ghost predicate InRange(bits: seq<nat>, v: seq<nat>) {
    |v| == |bits| && forall l :: 0 <= l < |v| ==> v[l] < Pow2(bits[l])
  }

  ghost function Size(bits: seq<nat>, order: seq<nat>): nat
    requires forall k :: 0 <= k < |order| ==> order[k] < |bits|
  {
    Capacity(Widths(bits, order))
  }

  /** Every address within the capacity has its components in range and is recovered from them. */
  lemma {:induction false} SliceRoundTrip(bits: seq<nat>, order: seq<nat>, pos: seq<nat>, a: nat)
    requires IsOrder(order, pos) && |order| == |bits|
    ensures InRange(bits, VecOf(bits, order, pos, a))
    ensures a < Size(bits, order) ==> AddrOf(bits, order, VecOf(bits, order, pos, a)) == a
  {
    var v, w := VecOf(bits, order, pos, a), Widths(bits, order);
    forall l | 0 <= l < |v|
      ensures v[l] < Pow2(bits[l])
    {
      FieldFits(w, a, pos[l]);
      assert w[pos[l]] == bits[l];
    }
    if a < Size(bits, order) {
      var f := Widths(v, order);
      forall j | 0 <= j < |f|
        ensures f[j] == Field(w, a, j)
      {
        assert pos[order[j]] == j;
      }
      CutAndAssemble(w, a, f);
    }
  }

  /** And every vector of components in range belongs to an address within the capacity. */
  lemma {:induction false} SliceOnto(bits: seq<nat>, order: seq<nat>, pos: seq<nat>, v: seq<nat>)
    requires IsOrder(order, pos) && |order| == |bits| && InRange(bits, v)
    ensures AddrOf(bits, order, v) < Size(bits, order)
    ensures VecOf(bits, order, pos, AddrOf(bits, order, v)) == v
  {
    var w, f := Widths(bits, order), Widths(v, order);
    assert Fit(w, f);
    AssembleBound(w, f, |v|);
    var a := AddrOf(bits, order, v);
    forall l | 0 <= l < |v|
      ensures VecOf(bits, order, pos, a)[l] == v[l]
    {
      AssembleAndCut(w, f, |v|, pos[l]);
      assert f[pos[l]] == v[order[pos[l]]] == v[l];
    }
  }

  /** The first `k` slices have been taken. */
  ghost predicate Sliced(bits: seq<nat>, order: seq<nat>, a: nat, vec: seq<int>, rest: nat, k: nat)
    requires |order| == |bits| && k <= |order| && forall j :: 0 <= j < |order| ==> order[j] < |bits|
  {
    && |vec| == |bits|
    && rest == a / Pow2(Offset(Widths(bits, order), k))
    && forall j :: 0 <= j < k ==> vec[order[j]] == Field(Widths(bits, order), a, j)
  }

  lemma {:induction false} SliceStart(bits: seq<nat>, order: seq<nat>, pos: seq<nat>, a: nat, vec: seq<int>)
    requires IsOrder(order, pos) && |order| == |bits| == |vec|
    ensures Sliced(bits, order, a, vec, a, 0)
  {
    assert a / 1 == a;
  }

  lemma {:induction false} SliceStep(bits: seq<nat>, order: seq<nat>, pos: seq<nat>, a: nat, vec: seq<int>,
                                     rest: nat, k: nat)
    requires IsOrder(order, pos) && |order| == |bits| && k < |order| && Sliced(bits, order, a, vec, rest, k)
    ensures var l := order[k];
            Sliced(bits, order, a, vec[l := Low(rest, bits[l])], High(rest, bits[l]), k + 1)
  {
    hide Offset;
    var w := Widths(bits, order);
    NextQuotient(w, a, k);
    assert forall j :: 0 <= j < k ==> order[j] != order[k] by {
      assert forall j :: 0 <= j < |order| ==> pos[order[j]] == j;
    }
  }

  lemma {:induction false} SliceDone(bits: seq<nat>, order: seq<nat>, pos: seq<nat>, a: nat, vec: seq<int>, rest: nat)
    requires IsOrder(order, pos) && |order| == |bits| && Sliced(bits, order, a, vec, rest, |order|)
    ensures vec == VecOf(bits, order, pos, a)
  {
    forall l | 0 <= l < |vec|
      ensures vec[l] == VecOf(bits, order, pos, a)[l]
    {
      assert order[pos[l]] == l;
    }
  }

  // ------------------------------------------------------------ the orders of the mappers

  function ChOrder(n: nat): (o: seq<nat>) {
    seq(n, k requires 0 <= k < n => n - 1 - k)
  }

  lemma {:induction false} ChOrderOk(n: nat)
    ensures IsOrder(ChOrder(n), ChOrder(n)) && |ChOrder(n)| == n
  {
  }

  /** The first level, the last, then the ones between. */
  function RoOrder(n: nat): seq<nat>
    requires n >= 2
  {
    seq(n, k requires 0 <= k < n => if k == 0 then 0 else if k == 1 then n - 1 else k - 1)
  }

  function RoPos(n: nat): seq<nat>
    requires n >= 2
  {
    seq(n, l requires 0 <= l < n => if l == 0 then 0 else if l == n - 1 then 1 else l + 1)
  }

  lemma {:induction false} RoOrderOk(n: nat)
    requires n >= 2
    ensures IsOrder(RoOrder(n), RoPos(n)) && |RoOrder(n)| == n
  {
  }

  ghost function ChVec(bits: seq<nat>, a: nat): (v: seq<nat>)
    ensures |v| == |bits|
  {
    ChOrderOk(|bits|);
    VecOf(bits, ChOrder(|bits|), ChOrder(|bits|), a)
  }

  ghost function ChAddr(bits: seq<nat>, v: seq<nat>): nat
    requires |v| == |bits|
  {
    AddrOf(bits, ChOrder(|bits|), v)
  }

  ghost function RoVec(bits: seq<nat>, a: nat): (v: seq<nat>)
    requires |bits| >= 2
    ensures |v| == |bits|
  {
    RoOrderOk(|bits|);
    VecOf(bits, RoOrder(|bits|), RoPos(|bits|), a)
  }

  ghost function RoAddr(bits: seq<nat>, v: seq<nat>): nat
    requires |v| == |bits| >= 2
  {
    AddrOf(bits, RoOrder(|bits|), v)
  }

  /** Both linear mappers are one-to-one between the addresses within the capacity and the vectors in range. */
  lemma {:induction false} ChRoundTrip(bits: seq<nat>, a: nat, v: seq<nat>)
    ensures InRange(bits, ChVec(bits, a))
    ensures a < Size(bits, ChOrder(|bits|)) ==> ChAddr(bits, ChVec(bits, a)) == a
    ensures InRange(bits, v) ==> ChAddr(bits, v) < Size(bits, ChOrder(|bits|)) && ChVec(bits, ChAddr(bits, v)) == v
  {
    ChOrderOk(|bits|);
    SliceRoundTrip(bits, ChOrder(|bits|), ChOrder(|bits|), a);
    if InRange(bits, v) {
      SliceOnto(bits, ChOrder(|bits|), ChOrder(|bits|), v);
    }
  }

  lemma {:induction false} RoRoundTrip(bits: seq<nat>, a: nat, v: seq<nat>)
    requires |bits| >= 2
    ensures InRange(bits, RoVec(bits, a))
    ensures a < Size(bits, RoOrder(|bits|)) ==> RoAddr(bits, RoVec(bits, a)) == a
    ensures InRange(bits, v) ==> RoAddr(bits, v) < Size(bits, RoOrder(|bits|)) && RoVec(bits, RoAddr(bits, v)) == v
  {
    RoOrderOk(|bits|);
    SliceRoundTrip(bits, RoOrder(|bits|), RoPos(|bits|), a);
    if InRange(bits, v) {
      SliceOnto(bits, RoOrder(|bits|), RoPos(|bits|), v);
    }
  }

  // ------------------------------------------------------------ splitting the column in two

  /** The widths when the column is taken as a lower part of two bits and an upper part. */
  function MopBits(bits: seq<nat>): (m: seq<nat>)
    requires bits != [] && bits[|bits| - 1] >= 2
    ensures |m| == |bits| + 1
  {
    bits[..|bits| - 1] + [2, bits[|bits| - 1] - 2]
  }

  /** The lower column bits, the levels above the row, the upper column bits, the row. */
  function MopOrder(n: nat): seq<nat>
    requires n >= 2
  {
    seq(n + 1, k requires 0 <= k <= n =>
      if k == 0 then n - 1 else if k < n - 1 then k - 1 else if k == n - 1 then n else n - 2)
  }

  function MopPos(n: nat): seq<nat>
    requires n >= 2
  {
    seq(n + 1, l requires 0 <= l <= n =>
      if l == n - 1 then 0 else if l == n then n - 1 else if l == n - 2 then n else l + 1)
  }

  lemma {:induction false} MopOrderOk(n: nat)
    requires n >= 2
    ensures IsOrder(MopOrder(n), MopPos(n)) && |MopOrder(n)| == n + 1
  {
  }

  function Merge(e: seq<nat>): seq<nat>
    requires |e| >= 2
  {
    e[..|e| - 2] + [e[|e| - 2] + 4 * e[|e| - 1]]
  }

  function Split(v: seq<nat>): (e: seq<nat>)
    requires v != []
    ensures |e| == |v| + 1
  {
    v[..|v| - 1] + [v[|v| - 1] % 4, v[|v| - 1] / 4]
  }

  lemma {:induction false} SplitMerge(bits: seq<nat>, e: seq<nat>)
    requires bits != [] && bits[|bits| - 1] >= 2 && InRange(MopBits(bits), e)
    ensures InRange(bits, Merge(e)) && Split(Merge(e)) == e
  {
    var c, b := |bits| - 1, bits[|bits| - 1];
    assert Pow2(2) == 4;
    Pow2Add(2, b - 2);
    assert MopBits(bits)[c] == 2 && MopBits(bits)[c + 1] == b - 2;
    MulBound(e[c], e[c + 1], 4, Pow2(b - 2));
    DivModUnique(e[c] + 4 * e[c + 1], 4, e[c + 1], e[c]);
    forall l | 0 <= l < c
      ensures Merge(e)[l] < Pow2(bits[l])
    {
      assert MopBits(bits)[l] == bits[l];
    }
  }

  lemma {:induction false} MergeSplit(bits: seq<nat>, v: seq<nat>)
    requires bits != [] && bits[|bits| - 1] >= 2 && InRange(bits, v)
    ensures InRange(MopBits(bits), Split(v)) && Merge(Split(v)) == v
  {
    var c, b := |bits| - 1, bits[|bits| - 1];
    assert Pow2(2) == 4;
    Pow2Add(2, b - 2);
    assert MopBits(bits)[c] == 2 && MopBits(bits)[c + 1] == b - 2;
    DivLess(v[c], 4, Pow2(b - 2));
    forall l | 0 <= l < c
      ensures Split(v)[l] < Pow2(MopBits(bits)[l])
    {
      assert MopBits(bits)[l] == bits[l];
    }
  }

  // ------------------------------------------------------------ the exclusive or with the column

  /** The bits of the column that level `l` is combined with. */
  function Mask(bits: seq<nat>, col: nat, l: nat): nat
    requires l < |bits|
  {
    (col / Pow2(Offset(bits, l))) % Pow2(bits[l])
  }

  function XorAll(bits: seq<nat>, v: seq<nat>): (x: seq<nat>)
    requires |v| == |bits| > 0
    ensures |x| == |v|
  {
    seq(|v|, l requires 0 <= l < |v| => if l < |v| - 1 then Xor(v[l], Mask(bits, v[|v| - 1], l)) else v[l])
  }

  /** The column is never changed, so combining twice undoes itself; and components stay in range. */
  lemma {:induction false} XorAllTwice(bits: seq<nat>, v: seq<nat>)
    requires |v| == |bits| > 0
    ensures XorAll(bits, XorAll(bits, v)) == v
    ensures InRange(bits, v) ==> InRange(bits, XorAll(bits, v))
  {
    var x, c := XorAll(bits, v), |v| - 1;
    assert x[c] == v[c];
    forall l | 0 <= l < c
      ensures XorAll(bits, x)[l] == v[l]
      ensures InRange(bits, v) ==> x[l] < Pow2(bits[l])
    {
      XorTwice(v[l], Mask(bits, v[c], l));
      if InRange(bits, v) {
        XorBound(v[l], Mask(bits, v[c], l), bits[l]);
      }
    }
  }

  ghost predicate MopOk(bits: seq<nat>) {
    |bits| >= 2 && bits[|bits| - 1] >= 2
  }

  /** The components before the exclusive or; the row gets all the bits that are left. */
  ghost function MopCut(bits: seq<nat>, a: nat): (v: seq<nat>)
    requires MopOk(bits)
    ensures |v| == |bits|
  {
    MopOrderOk(|bits|);
    var n := |bits|;
    var e := VecOf(MopBits(bits), MopOrder(n), MopPos(n), a);
    Merge(e[n - 2 := a / Pow2(Offset(Widths(MopBits(bits), MopOrder(n)), n))])
  }

  ghost function MopVec(bits: seq<nat>, a: nat): seq<nat>
    requires MopOk(bits)
  {
    XorAll(bits, MopCut(bits, a))
  }

  ghost function MopSize(bits: seq<nat>): nat
    requires MopOk(bits)
  {
    MopOrderOk(|bits|);
    Size(MopBits(bits), MopOrder(|bits|))
  }

  ghost function MopAddr(bits: seq<nat>, v: seq<nat>): nat
    requires MopOk(bits) && |v| == |bits|
  {
    MopOrderOk(|bits|);
    AddrOf(MopBits(bits), MopOrder(|bits|), Split(XorAll(bits, v)))
  }

  /** Within the capacity, the bits left for the row are its own field. */
  lemma {:induction false} RowIsField(bits: seq<nat>, a: nat)
    requires MopOk(bits) && a < MopSize(bits)
    ensures IsOrder(MopOrder(|bits|), MopPos(|bits|))
    ensures MopCut(bits, a) == Merge(VecOf(MopBits(bits), MopOrder(|bits|), MopPos(|bits|), a))
  {
    hide Pow2, Offset, Field;
    var n := |bits|;
    MopOrderOk(n);
    var w := Widths(MopBits(bits), MopOrder(n));
    var e := VecOf(MopBits(bits), MopOrder(n), MopPos(n), a);
    TopField(w, a, n);
    assert e[n - 2] == Field(w, a, MopPos(n)[n - 2]);
    assert e[n - 2 := Field(w, a, n)] == e;
  }

  /** The exclusive-or mapper loses nothing either. */
  lemma {:induction false} MopRoundTrip(bits: seq<nat>, a: nat)
    requires MopOk(bits) && a < MopSize(bits)
    ensures InRange(bits, MopVec(bits, a)) && MopAddr(bits, MopVec(bits, a)) == a
  {
    var n := |bits|;
    RowIsField(bits, a);
    SliceRoundTrip(MopBits(bits), MopOrder(n), MopPos(n), a);
    SplitMerge(bits, VecOf(MopBits(bits), MopOrder(n), MopPos(n), a));
    XorAllTwice(bits, MopCut(bits, a));
  }

  lemma {:induction false} MopOnto(bits: seq<nat>, v: seq<nat>)
    requires MopOk(bits) && InRange(bits, v)
    ensures MopAddr(bits, v) < MopSize(bits) && MopVec(bits, MopAddr(bits, v)) == v
  {
    var n, x := |bits|, XorAll(bits, v);
    MopOrderOk(n);
    XorAllTwice(bits, v);
    MergeSplit(bits, x);
    SliceOnto(MopBits(bits), MopOrder(n), MopPos(n), Split(x));
    RowIsField(bits, MopAddr(bits, v));
  }

  // ------------------------------------------------------------ the mappers

  function Resized(v: seq<int>, n: nat): (r: seq<int>)
    ensures |r| == n
  {
    if n <= |v| then v[..n] else v + seq(n - |v|, _ => -1)
  }

  class Request {
    const addr: nat
    var addrVec: seq<int>

    constructor (addr: nat)
      ensures this.addr == addr && addrVec == []
    {
      this.addr, addrVec := addr, [];
    }
  }

  ghost predicate IsLog2(n: nat, val: nat) {
    Pow2(n) <= val < Pow2(n + 1)
  }

  lemma {:induction false} IsLog2Of(n: nat, val: nat)
    requires val > 0 ==> Pow2(n) <= val < Pow2(n + 1)
    ensures val > 0 ==> IsLog2(n, val)
  {
  }

  class LinearMapper {
    var bits: seq<nat>
    var txOffset: nat
    var rowIdx: nat
    var colIdx: nat

    /** Column is the last level and row the one above it. */
    ghost predicate Valid()
      reads this
    {
      |bits| >= 2 && colIdx == |bits| - 1 && rowIdx + 1 == colIdx
    }

    constructor ()
    {
      bits, txOffset, rowIdx, colIdx := [], 0, 0, 0;
    }

    /** Takes the bit widths from the organisation; fails when it has no row level. */
    method Setup(counts: seq<nat>, prefetch: nat, channelWidth: nat, rowLevel: Option<nat>) returns (ok: bool)
      requires counts != [] && (forall l :: 0 <= l < |counts| ==> counts[l] > 0)
      requires 0 < prefetch <= counts[|counts| - 1]
      modifies this
      ensures ok <==> rowLevel.Some?
      ensures |bits| == |counts|
      ensures forall l :: 0 <= l < |bits| - 1 ==> IsLog2(bits[l], counts[l])
      ensures exists p :: IsLog2(p, prefetch) && IsLog2(bits[|bits| - 1] + p, counts[|bits| - 1])
      ensures prefetch * channelWidth / 8 > 0 ==> IsLog2(txOffset, prefetch * channelWidth / 8)
      ensures ok ==> colIdx == |bits| - 1 && rowIdx == rowLevel.value
    {
      hide IsLog2;
      bits := WidthsOf(counts);
      var last := |counts| - 1;
      var p := CalcLog2(prefetch);
      IsLog2Of(p, prefetch);
      Log2Monotone(p, prefetch, bits[last], counts[last]);
      bits := bits[last := bits[last] - p];
      assert IsLog2(bits[last] + p, counts[last]);
      txOffset := CalcLog2(prefetch * channelWidth / 8);
      IsLog2Of(txOffset, prefetch * channelWidth / 8);
      if rowLevel.None? {
        return false;
      }
      rowIdx, colIdx := rowLevel.value, last;
      return true;
    }

    static method WidthsOf(counts: seq<nat>) returns (w: seq<nat>)
      requires forall l :: 0 <= l < |counts| ==> counts[l] > 0
      ensures |w| == |counts| && forall l :: 0 <= l < |w| ==> IsLog2(w[l], counts[l])
    {
      w := [];
      for level := 0 to |counts|
        invariant |w| == level && forall l :: 0 <= l < level ==> IsLog2(w[l], counts[l])
      {
        var n := CalcLog2(counts[level]);
        w := w + [n];
      }
    }

    method ApplyChRaBaRoCo(req: Request)
      requires bits != []
      modifies req
      ensures req.addrVec == ChVec(bits, High(req.addr, txOffset))
    {
      hide Sliced, VecOf, IsOrder, Pow2;
      ghost var order, a := ChOrder(|bits|), High(req.addr, txOffset);
      ChOrderOk(|bits|);
      req.addrVec := Resized(req.addrVec, |bits|);
      var addr: nat, bit: nat := High(req.addr, txOffset), 0;
      SliceStart(bits, order, order, a, req.addrVec);
      for i := |bits| downto 0
        invariant |req.addrVec| == |bits| && Sliced(bits, order, a, req.addrVec, addr, |bits| - i)
      {
        SliceStep(bits, order, order, a, req.addrVec, addr, |bits| - 1 - i);
        bit, addr := SliceLowerBits(addr, bits[i]);
        req.addrVec := req.addrVec[i := bit];
      }
      SliceDone(bits, order, order, a, req.addrVec, addr);
    }

    method ApplyRoBaRaCoCh(req: Request)
      requires Valid()
      modifies req
      ensures req.addrVec == RoVec(bits, High(req.addr, txOffset))
    {
      hide Sliced, VecOf, IsOrder, Pow2;
      ghost var order, pos, a := RoOrder(|bits|), RoPos(|bits|), High(req.addr, txOffset);
      RoOrderOk(|bits|);
      req.addrVec := Resized(req.addrVec, |bits|);
      var addr: nat, bit: nat := High(req.addr, txOffset), 0;
      SliceStart(bits, order, pos, a, req.addrVec);
      SliceStep(bits, order, pos, a, req.addrVec, addr, 0);
      bit, addr := SliceLowerBits(addr, bits[0]);
      req.addrVec := req.addrVec[0 := bit];
      SliceStep(bits, order, pos, a, req.addrVec, addr, 1);
      bit, addr := SliceLowerBits(addr, bits[|bits| - 1]);
      req.addrVec := req.addrVec[|bits| - 1 := bit];
      for i: nat := 1 to rowIdx + 1
        invariant |req.addrVec| == |bits| && Sliced(bits, order, a, req.addrVec, addr, i + 1)
      {
        SliceStep(bits, order, pos, a, req.addrVec, addr, i + 1);
        bit, addr := SliceLowerBits(addr, bits[i]);
        req.addrVec := req.addrVec[i := bit];
      }
      SliceDone(bits, order, pos, a, req.addrVec, addr);
    }

    method ApplyMOP4CLXOR(req: Request)
      requires Valid() && MopOk(bits)
      modifies req
      ensures req.addrVec == MopVec(bits, High(req.addr, txOffset))
    {
      CutMop(req);
      XorColumn(req, MopCut(bits, High(req.addr, txOffset)));
    }

    /** The slices: two column bits, the levels above the row, the other column bits, and the rest for the row. */
    method CutMop(req: Request)
      requires Valid() && MopOk(bits)
      modifies req
      ensures req.addrVec == MopCut(bits, High(req.addr, txOffset))
    {
      hide Sliced, VecOf, IsOrder, Pow2, MopCut;
      ghost var b, order, pos, a := MopBits(bits), MopOrder(|bits|), MopPos(|bits|), High(req.addr, txOffset);
      MopOrderOk(|bits|);
      ghost var ext: seq<int> := seq(|bits| + 1, _ => 0);
      req.addrVec := Resized(req.addrVec, |bits|);
      var addr: nat, bit: nat := High(req.addr, txOffset), 0;
      SliceStart(b, order, pos, a, ext);
      SliceStep(b, order, pos, a, ext, addr, 0);
      bit, addr := SliceLowerBits(addr, 2);
      req.addrVec, ext := req.addrVec[colIdx := bit], ext[colIdx := bit];
      for lvl: nat := 0 to rowIdx
        invariant |req.addrVec| == |bits| && |ext| == |bits| + 1 && Sliced(b, order, a, ext, addr, lvl + 1)
        invariant req.addrVec[colIdx] == ext[colIdx] && forall l :: 0 <= l < lvl ==> req.addrVec[l] == ext[l]
      {
        SliceStep(b, order, pos, a, ext, addr, lvl + 1);
        bit, addr := SliceLowerBits(addr, bits[lvl]);
        req.addrVec, ext := req.addrVec[lvl := bit], ext[lvl := bit];
      }
      SliceStep(b, order, pos, a, ext, addr, rowIdx + 1);
      bit, addr := SliceLowerBits(addr, bits[colIdx] - 2);
      req.addrVec, ext := req.addrVec[colIdx := req.addrVec[colIdx] + 4 * bit], ext[|bits| := bit];
      req.addrVec := req.addrVec[rowIdx := addr];
      CutDone(bits, a, ext, addr, req.addrVec);
    }

    /** Combines every level but the column with its share of the column's bits. */
    method XorColumn(req: Request, ghost v: seq<nat>)
      requires Valid() && MopOk(bits) && |v| == |bits| && req.addrVec == v
      modifies req
      ensures req.addrVec == XorAll(bits, v)
    {
      hide Pow2, Xor;
      var rowXorIndex := 0;
      for lvl := 0 to colIdx
        invariant |req.addrVec| == |bits| && rowXorIndex == Offset(bits, lvl)
        invariant forall l :: 0 <= l < lvl ==> req.addrVec[l] == XorAll(bits, v)[l]
        invariant forall l :: lvl <= l < |bits| ==> req.addrVec[l] == v[l]
      {
        if bits[lvl] > 0 {
          var mask := (req.addrVec[colIdx] / Pow2(rowXorIndex)) % Pow2(bits[lvl]);
          req.addrVec := req.addrVec[lvl := Xor(req.addrVec[lvl], mask)];
          rowXorIndex := rowXorIndex + bits[lvl];
        } else {
          NoMask(bits, v[|bits| - 1], lvl);
          XorZero(v[lvl]);
        }
      }
    }
  }

  lemma {:induction false} NoMask(bits: seq<nat>, col: nat, l: nat)
    requires l < |bits| && bits[l] == 0
    ensures Mask(bits, col, l) == 0
  {
  }

  lemma {:induction false} CutDone(bits: seq<nat>, a: nat, ext: seq<int>, rest: nat, vec: seq<int>)
    requires MopOk(bits) && IsOrder(MopOrder(|bits|), MopPos(|bits|)) && |vec| == |bits|
    requires Sliced(MopBits(bits), MopOrder(|bits|), a, ext, rest, |bits|)
    requires vec[|bits| - 2] == rest && vec[|bits| - 1] == ext[|bits| - 1] + 4 * ext[|bits|]
    requires forall l :: 0 <= l < |bits| - 2 ==> vec[l] == ext[l]
    ensures vec == MopCut(bits, a)
  {
    hide Offset, Pow2, Field;
    var n, order, pos := |bits|, MopOrder(|bits|), MopPos(|bits|);
    var e := VecOf(MopBits(bits), order, pos, a);
    forall l | 0 <= l <= n && l != n - 2
      ensures ext[l] == e[l]
    {
      assert order[pos[l]] == l && pos[l] < n;
    }
  }

  lemma {:induction false} Log2Monotone(p: nat, a: nat, n: nat, b: nat)
    requires IsLog2(p, a) && IsLog2(n, b) && a <= b
    ensures p <= n
  {
    if n < p {
      if n + 1 < p {
        Pow2Monotone(n + 1, p);
      }
    }
  }

  /** For an organisation in powers of two the widths are the exponents. */
  lemma {:induction false} WidthOfPower(n: nat, k: nat)
    requires IsLog2(n, Pow2(k))
    ensures n == k
  {
    Log2OfPower(n, k);
  }
}
