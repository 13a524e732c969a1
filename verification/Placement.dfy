/** Mappers composed with the row indirection table (ramulator2/src/addr_mapper/impl/rit.cpp). */
module Placement {
  import opened Arithmetic
  import opened Mappers
  import opened Rit
  import opened RowSwap
  import opened Wrappers

  function Product(s: seq<nat>): nat {
    if s == [] then 1 else s[0] * Product(s[1..])
  }

  /** The levels that number the banks, and the level of the row. */
  datatype Levels = Levels(counts: seq<nat>, rank: nat, bank: nat, row: nat)
  {
    ghost predicate Valid() {
      rank <= bank < row < |counts|
    }

    /** How many banks there are below one value of level `i`. */
    function Weight(i: nat): nat
      decreases bank - i
    {
      if bank <= i || |counts| <= i + 1 then 1 else counts[i + 1] * Weight(i + 1)
    }

    function NumBanks(): nat
      requires rank < |counts|
    {
      counts[rank] * Weight(rank)
    }

    ghost predicate BankInRange(vec: seq<int>) {
      |vec| == |counts| && forall i :: rank <= i <= bank && i < |counts| ==> 0 <= vec[i] < counts[i]
    }

    /** The part of the bank number that levels `i` and below contribute. */
    function Flat(vec: seq<int>, i: nat): int
      requires |vec| == |counts| && i <= bank < |counts|
      decreases bank - i
    {
      if i == bank then vec[bank] else vec[i] * Weight(i) + Flat(vec, i + 1)
    }

    lemma {:induction false} FlatBound(vec: seq<int>, i: nat)
      requires Valid() && BankInRange(vec) && rank <= i <= bank
      ensures 0 <= Flat(vec, i) < counts[i] * Weight(i)
      decreases bank - i
    {
      if i < bank {
        FlatBound(vec, i + 1);
        var w := Weight(i);
        MulOrder(vec[i], counts[i], w);
        assert 0 <= vec[i] * w;
      }
    }

    /** The bank number is a mixed-radix code: it determines every level from rank to bank. */
    lemma {:induction false} FlatInjective(v: seq<int>, w: seq<int>, i: nat)
      requires Valid() && BankInRange(v) && BankInRange(w) && rank <= i <= bank && Flat(v, i) == Flat(w, i)
      ensures forall k :: i <= k <= bank ==> v[k] == w[k]
      decreases bank - i
    {
      if i < bank {
        FlatBound(v, i + 1);
        FlatBound(w, i + 1);
        DivModUnique(Flat(v, i), Weight(i), v[i], Flat(v, i + 1));
        DivModUnique(Flat(w, i), Weight(i), w[i], Flat(w, i + 1));
        FlatInjective(v, w, i + 1);
      }
    }

    /** Every bank number belongs to some values of the levels from `i` to the bank; the others are 0. */
    lemma {:induction false} WeightStep(i: nat)
      requires Valid() && i < bank
      ensures Weight(i) == counts[i + 1] * Weight(i + 1)
    {
    }

    lemma {:induction false} FlatOnto(b: nat, i: nat) returns (vec: seq<nat>)
      requires Valid() && rank <= i <= bank && b < counts[i] * Weight(i)
      ensures |vec| == |counts| && Flat(vec, i) == b
      ensures forall k :: 0 <= k < |vec| ==> if i <= k <= bank then vec[k] < counts[k] else vec[k] == 0
      decreases bank - i
    {
      if i == bank {
        vec := seq(|counts|, k => if k == bank then b else 0);
      } else {
        hide Levels.Weight;
        var w := Weight(i);
        DigitBelow(b, counts[i], w);
        WeightStep(i);
        DivMod(b, w);
        var rest := FlatOnto(b % w, i + 1);
        vec := rest[i := b / w];
        FlatFrame(vec, rest, i + 1);
      }
    }

    /** How many banks there are below one value of level `k`, as a product. */
    function BanksBelow(k: nat): nat
      requires k <= bank < |counts|
    {
      Product(counts[k + 1..bank + 1])
    }

    lemma {:induction false} WeightIsProduct(k: nat)
      requires Valid() && k <= bank
      ensures Weight(k) == BanksBelow(k)
      decreases bank - k
    {
      if k < bank {
        WeightIsProduct(k + 1);
        assert counts[k + 1..bank + 1][1..] == counts[k + 2..bank + 1];
      }
    }

    /** One more at level `k` moves the bank number by the banks below that level; all zeros is bank 0. */
    lemma {:induction false} FlatLayout(vec: seq<int>, i: nat, k: nat, d: int)
      requires Valid() && |vec| == |counts| && i <= k <= bank
      ensures Flat(vec[k := vec[k] + d], i) == Flat(vec, i) + d * BanksBelow(k)
      ensures (forall l :: i <= l <= bank ==> vec[l] == 0) ==> Flat(vec, i) == 0
      decreases bank - i
    {
      hide Levels.Weight, Levels.BanksBelow;
      WeightIsProduct(k);
      if i < bank {
        if i < k {
          FlatLayout(vec, i + 1, k, d);
        } else {
          FlatLayout(vec, i + 1, i + 1, 0);
          FlatFrame(vec[k := vec[k] + d], vec, i + 1);
          assert (vec[k] + d) * Weight(i) == vec[k] * Weight(i) + d * Weight(i);
        }
      } else {
        LastBanks();
      }
    }

    lemma {:induction false} LastBanks()
      requires Valid()
      ensures BanksBelow(bank) == 1
    {
    }

    /** Levels outside do not matter. */
    lemma {:induction false} FlatFrame(v: seq<int>, w: seq<int>, i: nat)
      requires |v| == |w| == |counts| && i <= bank < |counts| && forall k :: i <= k <= bank ==> v[k] == w[k]
      ensures Flat(v, i) == Flat(w, i)
      decreases bank - i
    {
      if i < bank {
        FlatFrame(v, w, i + 1);
      }
    }
  }

  lemma {:induction false} DigitBelow(b: nat, count: nat, w: nat)
    requires b < count * w
    ensures w > 0 && b / w < count
  {
    DivMod(b, w);
    if count <= b / w {
      MulOrder(count, b / w + 1, w);
    }
  }

  /**
   * All banks have a table. With several channels there are more tables than banks of a channel, and
   * the channels share the first ones.
   */
  ghost predicate TablesOk(levels: Levels, banks: seq<Table>) {
    levels.Valid() && |banks| >= levels.NumBanks()
  }

  /** Where the row of an address vector is found. */
  ghost function Placed(levels: Levels, banks: seq<Table>, vec: seq<int>): (p: seq<int>)
    requires TablesOk(levels, banks) && levels.BankInRange(vec)
    ensures |p| == |vec|
  {
    levels.FlatBound(vec, levels.rank);
    vec[levels.row := Redirect(banks[levels.Flat(vec, levels.rank)], vec[levels.row])]
  }

  /** Placing a vector twice gives it back: the bank is not affected, and its table is an involution. */
  lemma {:induction false} PlacedTwice(levels: Levels, banks: seq<Table>, vec: seq<int>)
    requires TablesOk(levels, banks) && levels.BankInRange(vec)
    requires forall b :: 0 <= b < |banks| ==> Involution(banks[b])
    ensures levels.BankInRange(Placed(levels, banks, vec))
    ensures Placed(levels, banks, Placed(levels, banks, vec)) == vec
  {
    var p := Placed(levels, banks, vec);
    levels.FlatFrame(vec, p, levels.rank);
    levels.FlatBound(vec, levels.rank);
    RedirectTwice(banks[levels.Flat(vec, levels.rank)], vec[levels.row]);
  }

  /** Mapper and table agree on the number of values of each level that numbers the banks. */
  ghost predicate Agree(levels: Levels, bits: seq<nat>) {
    levels.Valid() && |bits| == |levels.counts| && levels.bank + 1 < |bits|
    && forall i :: levels.rank <= i <= levels.bank ==> levels.counts[i] == Pow2(bits[i])
  }

  /** The number of rows of a bank. */
  ghost function Rows(levels: Levels, bits: seq<nat>): nat
    requires Agree(levels, bits)
  {
    Pow2(bits[levels.row])
  }

  lemma {:induction false} InRangeOfBanks(levels: Levels, bits: seq<nat>, v: seq<nat>)
    requires Agree(levels, bits) && InRange(bits, v)
    ensures levels.BankInRange(v)
  {
  }

  /** The address mappers that the indirection is composed with. */
  datatype Mapping = ChRaBaRoCo | RoBaRaCoCh | MOP4CLXOR

  ghost predicate Mappable(m: Mapping, bits: seq<nat>) {
    match m
    case ChRaBaRoCo => true
    case RoBaRaCoCh => |bits| >= 2
    case MOP4CLXOR => MopOk(bits)
  }

  ghost function VecFor(m: Mapping, bits: seq<nat>, a: nat): seq<nat>
    requires Mappable(m, bits)
  {
    match m
    case ChRaBaRoCo => ChVec(bits, a)
    case RoBaRaCoCh => RoVec(bits, a)
    case MOP4CLXOR => MopVec(bits, a)
  }

  ghost function SizeFor(m: Mapping, bits: seq<nat>): nat
    requires Mappable(m, bits)
  {
    match m
    case ChRaBaRoCo => Size(bits, ChOrder(|bits|))
    case RoBaRaCoCh => Size(bits, RoOrder(|bits|))
    case MOP4CLXOR => MopSize(bits)
  }

  ghost function AddrFor(m: Mapping, bits: seq<nat>, v: seq<nat>): nat
    requires Mappable(m, bits) && |v| == |bits|
  {
    match m
    case ChRaBaRoCo => ChAddr(bits, v)
    case RoBaRaCoCh => RoAddr(bits, v)
    case MOP4CLXOR => MopAddr(bits, v)
  }

  lemma {:induction false} AddrRoundTrip(m: Mapping, bits: seq<nat>, a: nat)
    requires Mappable(m, bits) && a < SizeFor(m, bits)
    ensures InRange(bits, VecFor(m, bits, a)) && AddrFor(m, bits, VecFor(m, bits, a)) == a
  {
    hide Size, MopSize, ChAddr, RoAddr, MopAddr, ChVec, RoVec, MopVec;
    match m
    case ChRaBaRoCo => ChRoundTrip(bits, a, []);
    case RoBaRaCoCh => RoRoundTrip(bits, a, []);
    case MOP4CLXOR => MopRoundTrip(bits, a);
  }

  lemma {:induction false} VecRoundTrip(m: Mapping, bits: seq<nat>, v: seq<nat>)
    requires Mappable(m, bits) && InRange(bits, v)
    ensures AddrFor(m, bits, v) < SizeFor(m, bits) && VecFor(m, bits, AddrFor(m, bits, v)) == v
  {
    hide Size, MopSize, ChAddr, RoAddr, MopAddr, ChVec, RoVec, MopVec;
    match m
    case ChRaBaRoCo => ChRoundTrip(bits, 0, v);
    case RoBaRaCoCh => RoRoundTrip(bits, 0, v);
    case MOP4CLXOR => MopOnto(bits, v);
  }

  /** Where an address within the capacity is placed. */
  ghost function PlaceOf(m: Mapping, levels: Levels, banks: seq<Table>, bits: seq<nat>, a: nat): seq<int>
    requires TablesOk(levels, banks) && Agree(levels, bits) && Mappable(m, bits) && a < SizeFor(m, bits)
  {
    AddrRoundTrip(m, bits, a);
    InRangeOfBanks(levels, bits, VecFor(m, bits, a));
    Placed(levels, banks, VecFor(m, bits, a))
  }

  /** Different addresses within the capacity are placed at different spots. */
  ghost predicate AddressesApart(m: Mapping, levels: Levels, banks: seq<Table>, bits: seq<nat>)
    requires TablesOk(levels, banks) && Agree(levels, bits) && Mappable(m, bits)
  {
    forall a: nat, b: nat :: a < b < SizeFor(m, bits) ==>
      PlaceOf(m, levels, banks, bits, a) != PlaceOf(m, levels, banks, bits, b)
  }

  /** In each bank different rows are found at different places. */
  ghost predicate RowsApart(levels: Levels, banks: seq<Table>, rows: nat)
    requires TablesOk(levels, banks)
  {
    forall b :: 0 <= b < levels.NumBanks() ==> OneToOneBelow(banks[b], rows)
  }

  /** Two vectors in range placed at the same spot differ at most in the row, and their rows collide in one table. */
  lemma {:induction false} SameSpot(levels: Levels, banks: seq<Table>, bits: seq<nat>, v: seq<nat>, w: seq<nat>)
    requires TablesOk(levels, banks) && Agree(levels, bits) && InRange(bits, v) && InRange(bits, w)
    requires levels.BankInRange(v) && levels.BankInRange(w) && Placed(levels, banks, v) == Placed(levels, banks, w)
    requires RowsApart(levels, banks, Rows(levels, bits))
    ensures v == w
  {
    hide OneToOneBelow;
    var p, q, row := Placed(levels, banks, v), Placed(levels, banks, w), levels.row;
    forall k | 0 <= k < |v| && k != row
      ensures v[k] == w[k]
    {
      assert p[k] == v[k] && q[k] == w[k];
    }
    levels.FlatFrame(v, w, levels.rank);
    levels.FlatBound(v, levels.rank);
    var t := banks[levels.Flat(v, levels.rank)];
    assert p[row] == Redirect(t, v[row]) && q[row] == Redirect(t, w[row]);
    assert v[row] == w[row] by {
      SameRow(t, Pow2(bits[row]), v[row], w[row]);
    }
  }

  lemma {:induction false} SameRow(t: Table, n: int, r: int, s: int)
    requires OneToOneBelow(t, n) && 0 <= r < n && 0 <= s < n && Redirect(t, r) == Redirect(t, s)
    ensures r == s
  {
  }

  /** Two rows that collide in the table of a bank belong to two vectors in range placed at the same spot. */
  lemma {:induction false} CollidingVectors(levels: Levels, banks: seq<Table>, bits: seq<nat>, b: nat, r: nat, s: nat)
    returns (v: seq<nat>, w: seq<nat>)
    requires TablesOk(levels, banks) && Agree(levels, bits) && b < levels.NumBanks()
    requires r < Rows(levels, bits) && s < Rows(levels, bits)
    requires Redirect(banks[b], r) == Redirect(banks[b], s)
    ensures InRange(bits, v) && InRange(bits, w) && v[levels.row] == r && w[levels.row] == s
    ensures levels.BankInRange(v) && levels.BankInRange(w) && Placed(levels, banks, v) == Placed(levels, banks, w)
  {
    var u := levels.FlatOnto(b, levels.rank);
    v, w := u[levels.row := r], u[levels.row := s];
    forall l | 0 <= l < |bits|
      ensures v[l] < Pow2(bits[l]) && w[l] < Pow2(bits[l])
    {
      assert Pow2(bits[l]) > 0;
    }
    InRangeOfBanks(levels, bits, v);
    InRangeOfBanks(levels, bits, w);
    levels.FlatFrame(v, u, levels.rank);
    levels.FlatFrame(w, u, levels.rank);
    assert Placed(levels, banks, v) == Placed(levels, banks, w);
  }

  /**
   * End to end: each mapper followed by the indirection sends different addresses to different places
   * exactly when, in the table of each bank, different rows are found at different places.
   */
  lemma {:induction false} EndToEndIff(m: Mapping, levels: Levels, banks: seq<Table>, bits: seq<nat>)
    requires TablesOk(levels, banks) && Agree(levels, bits) && Mappable(m, bits)
    ensures AddressesApart(m, levels, banks, bits) <==> RowsApart(levels, banks, Rows(levels, bits))
  {
    hide VecFor, AddrFor, SizeFor, Mappable, Placed, InRange, OneToOneBelow, Agree, Redirect;
    if RowsApart(levels, banks, Rows(levels, bits)) {
      forall a: nat, b: nat | a < b < SizeFor(m, bits)
        ensures PlaceOf(m, levels, banks, bits, a) != PlaceOf(m, levels, banks, bits, b)
      {
        var v, w := VecFor(m, bits, a), VecFor(m, bits, b);
        AddrRoundTrip(m, bits, a);
        AddrRoundTrip(m, bits, b);
        InRangeOfBanks(levels, bits, v);
        InRangeOfBanks(levels, bits, w);
        if PlaceOf(m, levels, banks, bits, a) == PlaceOf(m, levels, banks, bits, b) {
          SameSpot(levels, banks, bits, v, w);
          assert false;
        }
      }
    }
    if AddressesApart(m, levels, banks, bits) {
      forall b | 0 <= b < levels.NumBanks()
        ensures OneToOneBelow(banks[b], Rows(levels, bits))
      {
        forall r, s | 0 <= r < Rows(levels, bits) && 0 <= s < Rows(levels, bits)
                      && Redirect(banks[b], r) == Redirect(banks[b], s)
          ensures r == s
        {
          var v, w := CollidingVectors(levels, banks, bits, b, r, s);
          ApartVectors(m, levels, banks, bits, v, w);
        }
        IsOneToOneBelow(banks[b], Rows(levels, bits));
      }
    }
  }

  lemma {:induction false} IsOneToOneBelow(t: Table, n: int)
    requires forall r, s :: 0 <= r < n && 0 <= s < n && Redirect(t, r) == Redirect(t, s) ==> r == s
    ensures OneToOneBelow(t, n)
  {
  }

  lemma {:induction false} ApartVectors(m: Mapping, levels: Levels, banks: seq<Table>, bits: seq<nat>,
                                        v: seq<nat>, w: seq<nat>)
    requires TablesOk(levels, banks) && Agree(levels, bits) && Mappable(m, bits)
    requires AddressesApart(m, levels, banks, bits) && InRange(bits, v) && InRange(bits, w)
    requires levels.BankInRange(v) && levels.BankInRange(w) && Placed(levels, banks, v) == Placed(levels, banks, w)
    ensures v == w
  {
    hide VecFor, AddrFor, SizeFor, Mappable, Placed, Agree;
    VecRoundTrip(m, bits, v);
    VecRoundTrip(m, bits, w);
    var a, b := AddrFor(m, bits, v), AddrFor(m, bits, w);
    assert PlaceOf(m, levels, banks, bits, a) == PlaceOf(m, levels, banks, bits, b);
  }

  // ------------------------------------------------------------ over a history of row swaps

  /** One step of the row swapping: a decision in a bank, or the end of an epoch, for all of them. */
  datatype Act = Act(bank: nat, step: Step)

  /** What happened to the table of one bank. */
  function RunOf(history: seq<Act>, bank: nat): seq<Step> {
    if history == [] then []
    else
      var before, last := RunOf(Init(history), bank), Last(history);
      if last.step.EndEpoch? || last.bank == bank then before + [last.step] else before
  }

  function TablesOf(history: seq<Act>, banks: nat): (t: seq<Table>)
    ensures |t| == banks
  {
    seq(banks, b requires 0 <= b < banks => TableAfter(RunOf(history, b)))
  }

  /** The history is a run in the table of each bank, and decisions are made in banks that exist. */
  ghost predicate ValidHistory(levels: Levels, history: seq<Act>, banks: nat, capacity: nat) {
    && levels.Valid() && levels.NumBanks() <= banks
    && (forall b :: 0 <= b < banks ==> ValidRun(RunOf(history, b), capacity))
    && forall act :: act in history && act.step.Decide? ==> act.bank < levels.NumBanks()
  }

  /** At every point of the history different addresses are placed at different spots. */
  ghost predicate ApartThroughout(m: Mapping, levels: Levels, bits: seq<nat>, history: seq<Act>, banks: nat)
    requires levels.Valid() && levels.NumBanks() <= banks && Agree(levels, bits) && Mappable(m, bits)
  {
    && AddressesApart(m, levels, TablesOf(history, banks), bits)
    && (history != [] ==> ApartThroughout(m, levels, bits, Init(history), banks))
  }

  /** The steps of one bank are steps of the history. */
  lemma {:induction false} RunSteps(history: seq<Act>, bank: nat)
    ensures forall s :: s in RunOf(history, bank) ==>
              exists act :: act in history && act.step == s && (act.bank == bank || s.EndEpoch?)
  {
    if history != [] {
      RunSteps(Init(history), bank);
      assert history == Init(history) + [Last(history)];
    }
  }

  ghost predicate NoDoubleDraw(history: seq<Act>) {
    forall act :: act in history ==> !act.step.DrawsTwice()
  }

  /** Without a double draw all tables stay involutions. */
  lemma {:induction false} HistoryInvolutions(levels: Levels, history: seq<Act>, banks: nat, capacity: nat, b: nat)
    requires ValidHistory(levels, history, banks, capacity) && capacity % 2 == 0 && NoDoubleDraw(history) && b < banks
    ensures Involution(TableAfter(RunOf(history, b))) && |TableAfter(RunOf(history, b))| <= capacity
  {
    hide Involution, ValidRun, RunOf, TableAfter;
    RunSteps(history, b);
    InvolutionThroughoutIff(RunOf(history, b), capacity);
  }

  lemma {:induction false} ApartWithout(m: Mapping, levels: Levels, bits: seq<nat>, history: seq<Act>, banks: nat,
                                        capacity: nat)
    requires Agree(levels, bits) && Mappable(m, bits) && capacity % 2 == 0
    requires ValidHistory(levels, history, banks, capacity) && NoDoubleDraw(history)
    ensures AddressesApart(m, levels, TablesOf(history, banks), bits)
  {
    hide Agree, Mappable, AddressesApart, NoDoubleDraw, ValidRun, RunOf, TableAfter, Involution, OneToOneBelow;
    var tables, rows := TablesOf(history, banks), Rows(levels, bits);
    forall b | 0 <= b < levels.NumBanks()
      ensures OneToOneBelow(tables[b], rows)
    {
      HistoryInvolutions(levels, history, banks, capacity, b);
      InvolutionOneToOneBelow(tables[b], rows);
    }
    EndToEndIff(m, levels, tables, bits);
  }

  lemma {:induction false} InvolutionOneToOneBelow(t: Table, n: int)
    requires Involution(t)
    ensures OneToOneBelow(t, n)
  {
    InvolutionOneToOne(t);
  }

  lemma {:induction false} HistoryBefore(levels: Levels, history: seq<Act>, banks: nat, capacity: nat)
    requires history != [] && ValidHistory(levels, history, banks, capacity)
    ensures ValidHistory(levels, Init(history), banks, capacity)
  {
    var before, last := Init(history), Last(history);
    forall b | 0 <= b < banks
      ensures ValidRun(RunOf(before, b), capacity)
    {
      assert ValidRun(RunOf(history, b), capacity);
      if last.step.EndEpoch? || last.bank == b {
        assert Init(RunOf(history, b)) == RunOf(before, b);
      }
    }
  }

  /** Whenever both rows of a pair get the same partner, the pair is one of rows of the bank. */
  ghost predicate PairsInBanks(history: seq<Act>, rows: nat) {
    forall act :: act in history && act.step.DrawsTwice() ==>
      act.step.row < rows && act.step.mid[act.step.row].dst < rows
  }

  /**
   * Over any history of row swaps, each mapper followed by the indirection stays one-to-one as long as
   * no step gives both rows of a locked pair the same partner, and exactly as long if only pairs of rows
   * of the bank are given one.
   */
  lemma {:induction false} ApartThroughoutIff(m: Mapping, levels: Levels, bits: seq<nat>, history: seq<Act>,
                                              banks: nat, capacity: nat)
    requires Agree(levels, bits) && Mappable(m, bits) && capacity % 2 == 0
    requires ValidHistory(levels, history, banks, capacity)
    ensures NoDoubleDraw(history) ==> ApartThroughout(m, levels, bits, history, banks)
    ensures PairsInBanks(history, Rows(levels, bits)) ==>
              (ApartThroughout(m, levels, bits, history, banks) <==> NoDoubleDraw(history))
  {
    hide Agree, Mappable, AddressesApart, RunOf, ValidHistory, TablesOf;
    ShapeOf(levels, history, banks, capacity);
    if NoDoubleDraw(history) {
      ApartWithout(m, levels, bits, history, banks, capacity);
    }
    if history != [] {
      HistoryBefore(levels, history, banks, capacity);
      assert forall act :: act in history <==> act in Init(history) || act == Last(history) by {
        assert history == Init(history) + [Last(history)];
      }
      ApartThroughoutIff(m, levels, bits, Init(history), banks, capacity);
      if NoDoubleDraw(Init(history)) && !NoDoubleDraw(history) {
        DoubleDrawCollidesIff(m, levels, bits, history, banks, capacity);
      }
    }
  }

  /** All rows decided on and all draws used are rows of the banks. */
  ghost predicate StaysInBanks(history: seq<Act>, rows: nat) {
    forall act :: act in history ==> DecidesBelow(act.step, rows) && DrawsBelow(act.step, rows)
  }

  /** If no row beyond the bank is ever drawn, all pairs are pairs of rows of the bank. */
  lemma {:induction false} StayingPairs(levels: Levels, history: seq<Act>, banks: nat, capacity: nat, rows: nat)
    requires ValidHistory(levels, history, banks, capacity) && StaysInBanks(history, rows)
    ensures PairsInBanks(history, rows)
  {
    hide Below, DecidesBelow, DrawsBelow, MadeRoom, Lasts;
    if history != [] {
      var before, act := Init(history), Last(history);
      HistoryBefore(levels, history, banks, capacity);
      assert history == before + [act];
      StayingPairs(levels, before, banks, capacity, rows);
      if act.step.DrawsTwice() {
        var run, s := RunOf(before, act.bank), act.step;
        assert act in history && RunOf(history, act.bank) == run + [s] && Init(run + [s]) == run;
        RunStaysInBank(before, act.bank, rows);
        BelowThroughoutIff(run, capacity, rows);
        LastPair(run, s, capacity, rows);
      }
    }
  }

  lemma {:induction false} LastPair(run: seq<Step>, s: Step, capacity: nat, n: int)
    requires ValidRun(run + [s], capacity) && Init(run + [s]) == run && s.DrawsTwice() && DecidesBelow(s, n)
    requires Below(TableAfter(run), n) && s.Decide?
    ensures s.row < n && s.mid[s.row].dst < n
  {
    hide MadeRoom, Lasts, Decided, Decision, Picks;
    RoomKeeps(TableAfter(run), capacity, s.hot, s.row, s.mid, s.undone);
  }

  lemma {:induction false} ShapeOf(levels: Levels, history: seq<Act>, banks: nat, capacity: nat)
    requires ValidHistory(levels, history, banks, capacity)
    ensures levels.Valid() && levels.NumBanks() <= banks
  {
  }

  /** The first double draw places two addresses at the same spot exactly if it is for two rows of the bank. */
  lemma {:induction false} DoubleDrawCollidesIff(m: Mapping, levels: Levels, bits: seq<nat>, history: seq<Act>,
                                                 banks: nat, capacity: nat)
    requires Agree(levels, bits) && Mappable(m, bits) && capacity % 2 == 0 && history != []
    requires ValidHistory(levels, history, banks, capacity) && ValidHistory(levels, Init(history), banks, capacity)
    requires NoDoubleDraw(Init(history)) && Last(history).step.DrawsTwice()
    ensures var s, rows := Last(history).step, Rows(levels, bits);
            s.row < rows ==> (AddressesApart(m, levels, TablesOf(history, banks), bits) <==> rows <= s.mid[s.row].dst)
  {
    hide Agree, Mappable, AddressesApart, NoDoubleDraw, TableAfter, Involution, OneToOneBelow, MadeRoom, Lasts, Repairs,
         Rows, ValidRun, RunOf, Picks;
    var b, s, rows, before := Last(history).bank, Last(history).step, Rows(levels, bits), Init(history);
    var run, tables := RunOf(before, b), TablesOf(history, banks);
    LastInBank(history, b);
    HistoryInvolutions(levels, before, banks, capacity, b);
    EndToEndIff(m, levels, tables, bits);
    if s.row < rows {
      LastCollidesIff(run, s, capacity, rows);
      forall c | 0 <= c < levels.NumBanks() && c != b
        ensures OneToOneBelow(tables[c], rows)
      {
        OtherBank(history, c);
        HistoryInvolutions(levels, before, banks, capacity, c);
        InvolutionOneToOneBelow(tables[c], rows);
      }
      assert tables[b] == TableAfter(run + [s]);
    }
  }

  lemma {:induction false} LastInBank(history: seq<Act>, b: nat)
    requires history != [] && Last(history).bank == b
    ensures RunOf(history, b) == RunOf(Init(history), b) + [Last(history).step]
    ensures Init(RunOf(history, b)) == RunOf(Init(history), b)
  {
  }

  lemma {:induction false} OtherBank(history: seq<Act>, c: nat)
    requires history != [] && Last(history).bank != c && Last(history).step.Decide?
    ensures RunOf(history, c) == RunOf(Init(history), c)
  {
  }

  lemma {:induction false} RunStaysInBank(history: seq<Act>, bank: nat, rows: nat)
    requires forall act :: act in history ==> DecidesBelow(act.step, rows) && DrawsBelow(act.step, rows)
    ensures forall s :: s in RunOf(history, bank) ==> DecidesBelow(s, rows) && DrawsBelow(s, rows)
  {
    hide DecidesBelow, DrawsBelow;
    RunSteps(history, bank);
  }

  lemma {:induction false} LastCollidesIff(run: seq<Step>, s: Step, capacity: nat, n: int)
    requires ValidRun(run + [s], capacity) && Init(run + [s]) == run && capacity % 2 == 0
    requires s.DrawsTwice() && s.row < n && s.Decide?
    requires Involution(TableAfter(run)) && |TableAfter(run)| <= capacity
    ensures OneToOneBelow(TableAfter(run + [s]), n) <==> n <= s.mid[s.row].dst
  {
    hide Involution, OneToOneBelow, MadeRoom, Lasts, Decided, Decision, Picks;
    var t := TableAfter(run);
    Settled(t, capacity, s.hot, s.row, s.mid, s.undone, s.draws);
    DecisionOneToOneBelowIff(s.mid, s.row, s.Accepted(), n);
    assert TableAfter(run + [s]) == Decided(s.mid, s.row, s.Outcome());
  }

  /** The bank number, summed up from the bank level to the rank level. */
  method FlatBankId(levels: Levels, vec: seq<int>) returns (flat: int)
    requires levels.Valid() && |vec| == |levels.counts|
    ensures flat == levels.Flat(vec, levels.rank)
  {
    flat := vec[levels.bank];
    var accumulated := 1;
    for i: nat := levels.bank downto levels.rank
      invariant flat == levels.Flat(vec, i) && accumulated == levels.Weight(i)
    {
      accumulated := accumulated * levels.counts[i + 1];
      flat := flat + vec[i] * accumulated;
    }
  }

  /** Replaces the row of a request by its partner, unless the table was never set up. */
  method ApplyIndirection(levels: Levels, rit: RowIndirection, req: Request)
    requires levels.Valid()
    requires rit.capacity == -1 || (TablesOk(levels, rit.banks) && levels.BankInRange(req.addrVec))
    requires forall b :: 0 <= b < |rit.banks| ==> Rooted(rit.banks[b])
    modifies req
    ensures req.addrVec == if rit.capacity == -1 then old(req.addrVec) else Placed(levels, rit.banks, old(req.addrVec))
  {
    if rit.capacity == -1 {
      return;
    }
    levels.FlatBound(req.addrVec, levels.rank);
    var flat := FlatBankId(levels, req.addrVec);
    var dst := rit.CheckRit(flat, req.addrVec[levels.row]);
    if dst != -1 {
      req.addrVec := req.addrVec[levels.row := dst];
    }
  }
}
