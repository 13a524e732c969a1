/** The row-swap plugin: tracker, table and swaps together (ramulator2/src/dram_controller/impl/plugin/rrs.cpp). */
module SwapPlugin {
  import opened Wrappers
  import opened Rit
  import opened RowSwap
  import opened HotRows

  lemma {:induction false} UnlockedTwice(t: Table)
    ensures Unlocked(Unlocked(t)) == Unlocked(t) && (Rooted(t) ==> Rooted(Unlocked(t)))
  {
  }

  class RRS {
    const rit: RowIndirection
    const tracker: HotRowTracker
    const threshold: nat
    const period: nat
    var clk: nat

    /** There is a counter and a table for each bank, and no row is negative. */
    ghost predicate Valid()
      reads this, rit, tracker
    {
      && threshold > 0 && period > 0
      && 0 < |tracker.counts| == |tracker.spillover| <= |rit.banks|
      && forall b :: 0 <= b < |rit.banks| ==> Rooted(rit.banks[b])
    }

    constructor (rit: RowIndirection, numBanks: nat, entries: nat, threshold: nat, period: nat)
      requires threshold > 0 && period > 0 && 0 < numBanks <= |rit.banks|
      requires forall b :: 0 <= b < |rit.banks| ==> Rooted(rit.banks[b])
      ensures Valid() && fresh(tracker) && this.rit == rit && tracker.entries == entries && clk == 0
      ensures this.threshold == threshold && this.period == period && |tracker.counts| == numBanks
      ensures forall b :: 0 <= b < numBanks ==> tracker.At(b) == NOTHING_SEEN
    {
      this.rit, this.threshold, this.period, clk := rit, threshold, period, 0;
      tracker := new HotRowTracker(numBanks, entries);
    }

    /** At the end of an epoch all counters are cleared, and all tables unlocked once for each bank. */
    method EndEpoch()
      requires Valid()
      modifies rit`banks, tracker
      ensures Valid() && |tracker.counts| == |old(tracker.counts)| && |rit.banks| == |old(rit.banks)|
      ensures forall b :: 0 <= b < |tracker.counts| ==> tracker.At(b) == NOTHING_SEEN
      ensures forall b :: 0 <= b < |rit.banks| ==> rit.banks[b] == Unlocked(old(rit.banks)[b])
    {
      hide Unlocked, Rooted;
      forall t: Table
        ensures Unlocked(Unlocked(t)) == Unlocked(t) && (Rooted(t) ==> Rooted(Unlocked(t)))
      {
        UnlockedTwice(t);
      }
      for i := 0 to |tracker.counts|
        invariant |tracker.counts| == |tracker.spillover| == |old(tracker.counts)| && |rit.banks| == |old(rit.banks)|
        invariant forall b :: 0 <= b < i ==> tracker.At(b) == NOTHING_SEEN
        invariant forall b :: 0 <= b < |rit.banks| ==>
                    rit.banks[b] == if i == 0 then old(rit.banks)[b] else Unlocked(old(rit.banks)[b])
      {
        tracker.Reset(i);
        rit.Unlock();
      }
    }

    /**
     * One cycle. An epoch ends every `period` cycles. A row that is activated is counted, and when its
     * count reaches a multiple of the threshold, it is swapped; the tracked rows of its bank are hot.
     */
    method Update(act: Option<(nat, int)>, draws: seq<int>)
      returns (due: bool, o: Outcome, ok: bool, ghost mid: Table, ghost undone: seq<(int, int)>)
      requires Valid() && forall i :: 0 <= i < |draws| ==> 0 <= draws[i]
      requires act.Some? ==> act.value.0 < |tracker.counts| && 0 <= act.value.1
      modifies this`clk, rit`banks, tracker
      ensures clk == old(clk) + 1 && (ok ==> Valid())
      ensures |tracker.counts| == |tracker.spillover| == |old(tracker.counts)| && |rit.banks| == |old(rit.banks)|
      ensures forall b :: 0 <= b < |tracker.counts| ==>
                var was := if clk % period == 0 then NOTHING_SEEN else old(tracker.At(b));
                if act.Some? && act.value.0 == b then Activated(tracker.entries, was, act.value.1, tracker.At(b))
                else tracker.At(b) == was
      ensures due <==> act.Some? && Due(tracker.At(act.value.0), act.value.1, threshold)
      ensures forall b :: 0 <= b < |rit.banks| ==>
                var was := if clk % period == 0 then Unlocked(old(rit.banks)[b]) else old(rit.banks)[b];
                if due && act.value.0 == b then
                  Swapped(was, rit.capacity, tracker.counts[b].Keys, act.value.1, draws, o, ok, mid, undone,
                          rit.banks[b])
                else rit.banks[b] == was
    {
      hide Unlocked, Rooted, Activated, Swapped;
      clk := clk + 1;
      due, o, ok, mid, undone := false, Stopped, true, map[], [];
      if clk % period == 0 {
        EndEpoch();
      }
      if act.Some? {
        var (bank, row) := act.value;
        due := tracker.Activate(bank, row, threshold);
        if due {
          o, ok, mid, undone := SwapRow(rit, bank, row, tracker.counts[bank].Keys, draws);
        }
      }
    }
  }
}
