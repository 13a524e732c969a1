/** The hot-row tracker of the row-swap plugin (ramulator2/src/dram_controller/impl/plugin/rrs.cpp). */
module HotRows {
  import opened Wrappers
  import Arithmetic

  /** One bank's counters: those of the rows in the table, and the one for all other rows together. */
  datatype Tracker = Tracker(counts: map<int, nat>, spillover: nat)

  const NOTHING_SEEN := Tracker(map[], 0)

  predicate Evictable(t: Tracker, v: int) {
    v in t.counts && t.counts[v] == t.spillover
  }

  /**
   * One activation. A row in the table is counted; a new one enters a table with room, or takes the
   * place of some row whose count equals the spillover counter; else the spillover counter grows.
   */
  ghost predicate Activated(entries: nat, t: Tracker, row: int, t': Tracker) {
    if row in t.counts then t' == t.(counts := t.counts[row := t.counts[row] + 1])
    else if |t.counts| < entries then t' == t.(counts := t.counts[row := 1])
    else if exists v :: Evictable(t, v) then
      exists v :: Evictable(t, v) && t' == t.(counts := (t.counts - {v})[row := t.spillover + 1])
    else t' == t.(spillover := t.spillover + 1)
  }

  /** The row that has just been activated is to be swapped. */
  predicate Due(t: Tracker, row: int, threshold: nat)
    requires threshold > 0
  {
    row in t.counts && t.counts[row] % threshold == 0
  }

  // ------------------------------------------------------------ one epoch of one bank

  /** The activations of an epoch lead through the states, from the empty tracker on. */
  ghost predicate Epoch(entries: nat, acts: seq<int>, states: seq<Tracker>) {
    && |states| == |acts| + 1 && states[0] == NOTHING_SEEN
    && forall i :: 0 <= i < |acts| ==> Activated(entries, states[i], acts[i], states[i + 1])
  }

  /** How often the row has been activated. */
  function Times(acts: seq<int>, r: int): nat {
    if acts == [] then 0 else Times(Init(acts), r) + if Last(acts) == r then 1 else 0
  }

  /** How often it has been since it was last to be swapped, or since the start of the epoch. */
  function Unswapped(threshold: nat, acts: seq<int>, states: seq<Tracker>, r: int): nat
    requires threshold > 0 && |states| == |acts| + 1
  {
    if acts == [] then 0
    else
      var before := Unswapped(threshold, Init(acts), Init(states), r);
      if Last(acts) != r then before else if Due(Last(states), r, threshold) then 0 else before + 1
  }

  lemma {:induction false} EpochBefore(entries: nat, acts: seq<int>, states: seq<Tracker>)
    requires Epoch(entries, acts, states) && acts != []
    ensures Epoch(entries, Init(acts), Init(states)) && |states| == |acts| + 1
    ensures Activated(entries, Last(Init(states)), Last(acts), Last(states))
  {
    hide Activated;
    assert Activated(entries, states[|acts| - 1], acts[|acts| - 1], states[|acts| - 1 + 1]);
  }

  lemma {:induction false} EpochOn(entries: nat, acts: seq<int>, states: seq<Tracker>, row: int, t: Tracker)
    requires Epoch(entries, acts, states) && Activated(entries, Last(states), row, t)
    ensures Epoch(entries, acts + [row], states + [t])
    ensures Init(acts + [row]) == acts && Init(states + [t]) == states
  {
    hide Activated;
    var more, after := acts + [row], states + [t];
    forall i | 0 <= i < |more|
      ensures Activated(entries, after[i], more[i], after[i + 1])
    {
      if i < |acts| {
        assert Activated(entries, states[i], acts[i], states[i + 1]);
      }
    }
  }

  // ------------------------------------------------------------ the sum of the counts

  ghost function Sum(m: map<int, nat>): nat {
    if m == map[] then 0
    else
      SomeKey(m);
      var k: int :| k in m;
      m[k] + Sum(m - {k})
  }

  lemma {:induction false} SomeKey(m: map<int, nat>)
    requires m != map[]
    ensures exists k: int :: k in m
  {
    var k := Member(m.Keys);
  }

  lemma {:induction false} SumWithout(m: map<int, nat>, k: int)
    requires k in m
    ensures Sum(m) == m[k] + Sum(m - {k})
    decreases |m|
  {
    SomeKey(m);
    var j: int :| j in m && Sum(m) == m[j] + Sum(m - {j});
    if j != k {
      SumWithout(m - {j}, k);
      SumWithout(m - {k}, j);
      assert m - {j} - {k} == m - {k} - {j};
    }
  }

  lemma {:induction false} SumWith(m: map<int, nat>, k: int, n: nat)
    requires k !in m
    ensures Sum(m[k := n]) == Sum(m) + n
  {
    SumWithout(m[k := n], k);
    assert m[k := n] - {k} == m;
  }

  lemma {:induction false} SumUpdate(m: map<int, nat>, k: int, n: nat)
    requires k in m
    ensures Sum(m[k := n]) == Sum(m) - m[k] + n
  {
    SumWithout(m, k);
    SumWith(m - {k}, k, n);
    assert (m - {k})[k := n] == m[k := n];
  }

  lemma {:induction false} SumAtLeast(m: map<int, nat>, low: nat)
    requires forall k :: k in m ==> low <= m[k]
    ensures |m| * low <= Sum(m)
    decreases |m|
  {
    hide Sum;
    if m != map[] {
      SomeKey(m);
      var k: int :| k in m;
      SumWithout(m, k);
      SumAtLeast(m - {k}, low);
      OneSmaller(m, k);
      assert |m| * low == (|m| - 1) * low + low;
    }
  }

  // ------------------------------------------------------------ what every activation keeps

  /** The counts account for all activations, and none is below the spillover counter. */
  ghost predicate Counted(entries: nat, t: Tracker, n: nat) {
    && Sum(t.counts) + t.spillover == n && |t.counts| <= entries
    && (forall v :: v in t.counts ==> t.spillover <= t.counts[v])
    && (t.spillover > 0 ==> |t.counts| == entries)
  }

  /** A row takes the place of an evictable one. */
  lemma {:induction false} CountedEviction(entries: nat, t: Tracker, v: int, row: int, n: nat)
    requires Counted(entries, t, n) && Evictable(t, v) && row !in t.counts
    ensures Counted(entries, t.(counts := (t.counts - {v})[row := t.spillover + 1]), n + 1)
  {
    hide Sum;
    SumWithout(t.counts, v);
    SumWith(t.counts - {v}, row, t.spillover + 1);
    OneSmaller(t.counts, v);
    OneLarger(t.counts - {v}, row, t.spillover + 1);
  }

  lemma {:induction false} CountedStep(entries: nat, t: Tracker, row: int, t': Tracker, n: nat)
    requires Counted(entries, t, n) && Activated(entries, t, row, t')
    ensures Counted(entries, t', n + 1)
  {
    hide Sum;
    if row in t.counts {
      SumUpdate(t.counts, row, t.counts[row] + 1);
      SameSize(t.counts, row, t.counts[row] + 1);
    } else if |t.counts| < entries {
      SumWith(t.counts, row, 1);
      OneLarger(t.counts, row, 1);
    } else if v: int :| Evictable(t, v) && t' == t.(counts := (t.counts - {v})[row := t.spillover + 1]) {
      CountedEviction(entries, t, v, row, n);
    } else {
      forall v | v in t.counts
        ensures t.spillover < t.counts[v]
      {
        assert !Evictable(t, v);
      }
    }
  }

  lemma {:induction false} SameSize(m: map<int, nat>, k: int, n: nat)
    requires k in m
    ensures |m[k := n]| == |m|
  {
    assert m[k := n].Keys == m.Keys;
    assert |m[k := n]| == |m[k := n].Keys| && |m| == |m.Keys|;
  }

  lemma {:induction false} OneLarger(m: map<int, nat>, k: int, n: nat)
    requires k !in m
    ensures |m[k := n]| == |m| + 1
  {
    assert m[k := n].Keys == m.Keys + {k};
    assert |m[k := n]| == |m[k := n].Keys| && |m| == |m.Keys|;
  }

  lemma {:induction false} OneSmaller(m: map<int, nat>, k: int)
    requires k in m
    ensures |m - {k}| == |m| - 1
  {
    assert (m - {k}).Keys == m.Keys - {k};
    assert |m - {k}| == |(m - {k}).Keys| && |m| == |m.Keys|;
  }

  lemma {:induction false} EpochCounted(entries: nat, acts: seq<int>, states: seq<Tracker>)
    requires Epoch(entries, acts, states)
    ensures Counted(entries, Last(states), |acts|)
  {
    hide Activated, Counted;
    if acts == [] {
      NothingCounted(entries);
    } else {
      EpochBefore(entries, acts, states);
      EpochCounted(entries, Init(acts), Init(states));
      CountedStep(entries, Last(Init(states)), Last(acts), Last(states), |acts| - 1);
    }
  }

  lemma {:induction false} NothingCounted(entries: nat)
    ensures Counted(entries, NOTHING_SEEN, 0)
  {
  }

  /** The spillover counter stays below its share of the activations. */
  lemma {:induction false} SpilloverBound(entries: nat, t: Tracker, n: nat)
    requires Counted(entries, t, n)
    ensures (entries + 1) * t.spillover <= n
  {
    SumAtLeast(t.counts, t.spillover);
    assert (entries + 1) * t.spillover == entries * t.spillover + t.spillover;
  }

  /** The tracker never counts too few: a row in the table has its count, any other the spillover counter. */
  ghost predicate Covers(t: Tracker, acts: seq<int>, r: int) {
    Times(acts, r) <= if r in t.counts then t.counts[r] else t.spillover
  }

  lemma {:induction false} EpochCovers(entries: nat, acts: seq<int>, states: seq<Tracker>, r: int)
    requires Epoch(entries, acts, states)
    ensures Covers(Last(states), acts, r)
  {
    hide Counted;
    if acts != [] {
      EpochBefore(entries, acts, states);
      EpochCovers(entries, Init(acts), Init(states), r);
      EpochCounted(entries, Init(acts), Init(states));
      CoversStep(entries, Last(Init(states)), Init(acts), Last(acts), Last(states), r);
    }
  }

  lemma {:induction false} CoversStep(entries: nat, t: Tracker, acts: seq<int>, row: int, t': Tracker, r: int)
    requires Covers(t, acts, r) && Counted(entries, t, |acts|) && Activated(entries, t, row, t')
    ensures Times(acts, r) + (if row == r then 1 else 0) <= if r in t'.counts then t'.counts[r] else t'.spillover
  {
    hide Sum;
  }

  /** A row's activations since it was last to be swapped, as the tracker bounds them. */
  ghost predicate Bounded(t: Tracker, r: int, unswapped: nat, threshold: nat)
    requires threshold > 0
  {
    unswapped <= if r in t.counts then t.counts[r] % threshold else t.spillover
  }

  lemma {:induction false} BoundedStep(entries: nat, t: Tracker, row: int, t': Tracker, n: nat, r: int, unswapped: nat,
                                       threshold: nat)
    requires threshold > 0 && t.spillover < threshold && Counted(entries, t, n) && Activated(entries, t, row, t')
    requires t'.spillover < threshold && Bounded(t, r, unswapped, threshold)
    ensures var after := if row != r then unswapped else if Due(t', r, threshold) then 0 else unswapped + 1;
            Bounded(t', r, after, threshold)
  {
    hide Sum;
    if row == r && row in t.counts {
      Arithmetic.NextRemainder(t.counts[r], threshold);
    } else if row == r && row in t'.counts {
      Arithmetic.SmallRemainder(t'.counts[r], threshold);
    } else if row != r && r in t.counts && r !in t'.counts {
      Arithmetic.SmallRemainder(t.counts[r], threshold);
    }
  }

  /**
   * With fewer than (entries + 1) * threshold activations of a bank in an epoch, no row is activated
   * `threshold` times without being swapped.
   */
  lemma {:induction false} NeverMissed(entries: nat, threshold: nat, acts: seq<int>, states: seq<Tracker>, r: int)
    requires threshold > 0 && Epoch(entries, acts, states) && |acts| < (entries + 1) * threshold
    ensures Bounded(Last(states), r, Unswapped(threshold, acts, states, r), threshold)
    ensures Last(states).spillover < threshold && Unswapped(threshold, acts, states, r) < threshold
  {
    hide Activated, Counted, Bounded;
    EpochCounted(entries, acts, states);
    SpilloverBound(entries, Last(states), |acts|);
    SpilloverBelow(entries, Last(states).spillover, threshold, |acts|);
    if acts == [] {
      NothingBounded(r, threshold);
    } else {
      EpochBefore(entries, acts, states);
      NeverMissed(entries, threshold, Init(acts), Init(states), r);
      EpochCounted(entries, Init(acts), Init(states));
      BoundedStep(entries, Last(Init(states)), Last(acts), Last(states), |acts| - 1, r,
                  Unswapped(threshold, Init(acts), Init(states), r), threshold);
    }
    BoundedBelow(Last(states), r, Unswapped(threshold, acts, states, r), threshold);
  }

  lemma {:induction false} SpilloverBelow(entries: nat, spillover: nat, threshold: nat, n: nat)
    requires (entries + 1) * spillover <= n < (entries + 1) * threshold
    ensures spillover < threshold
  {
    if threshold <= spillover {
      Arithmetic.MulOrder(threshold, spillover + 1, entries + 1);
    }
  }

  lemma {:induction false} NothingBounded(r: int, threshold: nat)
    requires threshold > 0
    ensures Bounded(NOTHING_SEEN, r, 0, threshold)
  {
  }

  lemma {:induction false} BoundedBelow(t: Tracker, r: int, unswapped: nat, threshold: nat)
    requires threshold > 0 && Bounded(t, r, unswapped, threshold) && t.spillover < threshold
    ensures unswapped < threshold
  {
  }

  // ------------------------------------------------------------ the bound is exact

  /** Whether no run of at most `n` activations leaves a row activated `threshold` times without being swapped. */
  ghost predicate Guarantee(entries: nat, threshold: nat, n: nat)
    requires threshold > 0
  {
    forall acts, states, r :: Epoch(entries, acts, states) && |acts| <= n ==>
      Unswapped(threshold, acts, states, r) < threshold
  }

  /** It is so exactly for fewer than (entries + 1) * threshold activations. */
  lemma {:induction false} GuaranteeIff(entries: nat, threshold: nat, n: nat)
    requires threshold > 0
    ensures Guarantee(entries, threshold, n) <==> n < (entries + 1) * threshold
  {
    hide Epoch, Unswapped;
    if n < (entries + 1) * threshold {
      forall acts, states, r | Epoch(entries, acts, states) && |acts| <= n
        ensures |states| == |acts| + 1 && Unswapped(threshold, acts, states, r) < threshold
      {
        EpochShape(entries, acts, states);
        NeverMissed(entries, threshold, acts, states, r);
      }
    } else {
      var acts, states := Flood(entries, threshold);
      EpochShape(entries, acts, states);
      assert Unswapped(threshold, acts, states, 0) == threshold;
    }
  }

  lemma {:induction false} EpochShape(entries: nat, acts: seq<int>, states: seq<Tracker>)
    requires Epoch(entries, acts, states)
    ensures |states| == |acts| + 1
  {
  }

  /** The rows 1 to `n` fill the table with the count `c` each. */
  function Filled(n: nat, c: nat): map<int, nat> {
    if n == 0 then map[] else Filled(n - 1, c)[n := c]
  }

  /** As many activations leave row 0 uncounted: the other rows fill the table first, `threshold` times each. */
  lemma {:induction false} Flood(entries: nat, threshold: nat) returns (acts: seq<int>, states: seq<Tracker>)
    requires threshold > 0
    ensures Epoch(entries, acts, states) && |acts| == (entries + 1) * threshold
    ensures Unswapped(threshold, acts, states, 0) == threshold
  {
    hide Epoch, Unswapped, Activated, Filled;
    acts, states := [], [NOTHING_SEEN];
    FloodStart(entries, threshold);
    for k: nat := 0 to entries
      invariant Epoch(entries, acts, states) && |states| == |acts| + 1 && |acts| == k * threshold
      invariant Last(states) == Tracker(Filled(k, threshold), 0)
      invariant Unswapped(threshold, acts, states, 0) == 0
    {
      acts, states := FillOne(entries, threshold, acts, states, k);
      assert (k + 1) * threshold == k * threshold + threshold;
    }
    for c: nat := 0 to threshold
      invariant Epoch(entries, acts, states) && |states| == |acts| + 1 && |acts| == entries * threshold + c
      invariant Last(states) == Tracker(Filled(entries, threshold), c)
      invariant Unswapped(threshold, acts, states, 0) == c
    {
      SpillStep(entries, threshold, c);
      EpochOn(entries, acts, states, 0, Tracker(Filled(entries, threshold), c + 1));
      SpilledOne(threshold, acts, states, Tracker(Filled(entries, threshold), c + 1), entries);
      acts, states := acts + [0], states + [Tracker(Filled(entries, threshold), c + 1)];
    }
    assert (entries + 1) * threshold == entries * threshold + threshold;
  }

  lemma {:induction false} FloodStart(entries: nat, threshold: nat)
    requires threshold > 0
    ensures Epoch(entries, [], [NOTHING_SEEN]) && Unswapped(threshold, [], [NOTHING_SEEN], 0) == 0
    ensures NOTHING_SEEN == Tracker(Filled(0, threshold), 0)
  {
  }

  /** The row k + 1 enters the table and is activated `threshold` times. */
  lemma {:induction false} FillOne(entries: nat, threshold: nat, acts0: seq<int>, states0: seq<Tracker>, k: nat)
    returns (acts: seq<int>, states: seq<Tracker>)
    requires threshold > 0 && k < entries && Epoch(entries, acts0, states0) && |states0| == |acts0| + 1
    requires Last(states0) == Tracker(Filled(k, threshold), 0) && Unswapped(threshold, acts0, states0, 0) == 0
    ensures Epoch(entries, acts, states) && |states| == |acts| + 1 && |acts| == |acts0| + threshold
    ensures Last(states) == Tracker(Filled(k + 1, threshold), 0) && Unswapped(threshold, acts, states, 0) == 0
  {
    hide Epoch, Unswapped, Activated, Filled;
    acts, states := acts0, states0;
    for c: nat := 0 to threshold
      invariant Epoch(entries, acts, states) && |states| == |acts| + 1 && |acts| == |acts0| + c
      invariant Last(states) == Tracker(Filling(k, threshold, c), 0)
      invariant Unswapped(threshold, acts, states, 0) == 0
    {
      var t := Tracker(Filling(k, threshold, c + 1), 0);
      FillStep(entries, threshold, k, c);
      EpochOn(entries, acts, states, k + 1, t);
      OtherRow(threshold, acts, states, k + 1, t);
      acts, states := acts + [k + 1], states + [t];
    }
    FilledOne(k, threshold);
  }

  function Filling(k: nat, threshold: nat, c: nat): map<int, nat> {
    if c == 0 then Filled(k, threshold) else Filled(k, threshold)[k + 1 := c]
  }

  lemma {:induction false} FilledSize(n: nat, c: nat)
    ensures |Filled(n, c)| == n && forall k: int :: k in Filled(n, c) <==> 1 <= k <= n
    ensures forall k: int :: k in Filled(n, c) ==> Filled(n, c)[k] == c
  {
    if n > 0 {
      FilledSize(n - 1, c);
      OneLarger(Filled(n - 1, c), n, c);
    }
  }

  lemma {:induction false} FilledOne(k: nat, threshold: nat)
    requires threshold > 0
    ensures Filling(k, threshold, threshold) == Filled(k + 1, threshold)
  {
  }

  lemma {:induction false} FillStep(entries: nat, threshold: nat, k: nat, c: nat)
    requires k < entries
    ensures Activated(entries, Tracker(Filling(k, threshold, c), 0), k + 1, Tracker(Filling(k, threshold, c + 1), 0))
  {
    FilledSize(k, threshold);
  }

  lemma {:induction false} SpillStep(entries: nat, threshold: nat, c: nat)
    requires c < threshold
    ensures Activated(entries, Tracker(Filled(entries, threshold), c), 0, Tracker(Filled(entries, threshold), c + 1))
  {
    FilledSize(entries, threshold);
  }

  lemma {:induction false} OtherRow(threshold: nat, acts: seq<int>, states: seq<Tracker>, row: int, t: Tracker)
    requires threshold > 0 && |states| == |acts| + 1 && row != 0
    ensures Unswapped(threshold, acts + [row], states + [t], 0) == Unswapped(threshold, acts, states, 0)
  {
    assert Init(acts + [row]) == acts && Init(states + [t]) == states;
  }

  lemma {:induction false} SpilledOne(threshold: nat, acts: seq<int>, states: seq<Tracker>, t: Tracker, entries: nat)
    requires threshold > 0 && |states| == |acts| + 1 && t.counts == Filled(entries, threshold)
    ensures Unswapped(threshold, acts + [0], states + [t], 0) == Unswapped(threshold, acts, states, 0) + 1
  {
    assert Init(acts + [0]) == acts && Init(states + [t]) == states && Last(states + [t]) == t;
    FilledSize(entries, threshold);
  }

  // ------------------------------------------------------------ the tracker as the plugin holds it

  class HotRowTracker {
    const entries: nat
    var counts: seq<map<int, nat>>
    var spillover: seq<nat>

    constructor (numBanks: nat, entries: nat)
      ensures this.entries == entries && |counts| == |spillover| == numBanks
      ensures forall b :: 0 <= b < numBanks ==> At(b) == NOTHING_SEEN
    {
      this.entries := entries;
      counts, spillover := seq(numBanks, _ => map[]), seq(numBanks, _ => 0);
    }

    function At(bank: nat): Tracker
      requires bank < |counts| == |spillover|
      reads this
    {
      Tracker(counts[bank], spillover[bank])
    }

    /** The tracker forgets one bank, at the end of an epoch. */
    method Reset(bank: nat)
      requires bank < |counts| == |spillover|
      modifies this
      ensures |counts| == |spillover| == |old(counts)| && At(bank) == NOTHING_SEEN
      ensures forall b :: 0 <= b < |counts| && b != bank ==> At(b) == old(At(b))
    {
      counts, spillover := counts[bank := map[]], spillover[bank := 0];
    }

    /** Counts an activation, and says whether the row is to be swapped. */
    method Activate(bank: nat, row: int, threshold: nat) returns (due: bool)
      requires bank < |counts| == |spillover| && threshold > 0
      modifies this
      ensures |counts| == |spillover| == |old(counts)| && Activated(entries, old(At(bank)), row, At(bank))
      ensures forall b :: 0 <= b < |counts| && b != bank ==> At(b) == old(At(b))
      ensures due <==> Due(At(bank), row, threshold)
    {
      if row !in counts[bank] {
        if |counts[bank]| < entries {
          counts := counts[bank := counts[bank][row := 1]];
        } else {
          var evicted := FindEvictable(bank);
          if evicted.None? {
            assert At(bank) == old(At(bank));
            spillover := spillover[bank := spillover[bank] + 1];
            return false;
          }
          counts := counts[bank := (counts[bank] - {evicted.value})[row := spillover[bank] + 1]];
        }
      } else {
        counts := counts[bank := counts[bank][row := counts[bank][row] + 1]];
      }
      due := counts[bank][row] % threshold == 0;
    }

    /** Some row whose count equals the spillover counter, if there is one. */
    method FindEvictable(bank: nat) returns (v: Option<int>)
      requires bank < |counts| == |spillover|
      ensures v.Some? ==> Evictable(At(bank), v.value)
      ensures v.None? ==> forall r :: !Evictable(At(bank), r)
    {
      var rest := counts[bank].Keys;
      while rest != {}
        invariant rest <= counts[bank].Keys
        invariant forall r :: r in counts[bank] && r !in rest ==> !Evictable(At(bank), r)
      {
        ghost var some := Member(rest);
        var r :| r in rest;
        if counts[bank][r] == spillover[bank] {
          return Some(r);
        }
        rest := rest - {r};
      }
      return None;
    }
  }
}
