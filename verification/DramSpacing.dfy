/**
 * What a constraint table means for two commands, row by row: when a command is ready, in terms of
 * the addresses, commands and clocks of the earlier ones only.
 */
module DramSpacing {
  import opened Wrappers
  import opened DramSpec
  import opened DramTiming
  import opened DramNode
  import opened DramRule
  import opened DramSafety

  ghost predicate HasBanks(spec: Spec) {
    |spec.counts| == NUM_LEVELS && spec.counts[RANK] > 0 && spec.counts[BANKGROUP] > 0 && spec.counts[BANK] > 0
  }

  // ------------------------------------------------------------ where two addresses meet

  /** Two addresses name a common node at `level`. */
  predicate Meet(a: seq<int>, b: seq<int>, level: nat) {
    && |a| == |b| == NUM_LEVELS && level <= BANK
    && forall k :: 0 <= k <= level ==> a[k] == b[k] || a[k] == -1 || b[k] == -1
  }

  /** Address `a` names one rank, and `b` another of the same channel; -1 names all `ranks` of them. */
  predicate OtherRank(ranks: nat, a: seq<int>, b: seq<int>) {
    && |a| == |b| == NUM_LEVELS && a[CHANNEL] == b[CHANNEL]
    && a[RANK] >= 0 && a[RANK] != b[RANK] && (b[RANK] == -1 ==> ranks > 1)
  }

  predicate NamesRank(a: seq<int>, channel: int, rank: int) {
    |a| == NUM_LEVELS && a[CHANNEL] == channel && (a[RANK] == rank || a[RANK] == -1)
  }

  lemma {:induction false} CommonPath(spec: Spec, a: seq<int>, b: seq<int>, level: nat) returns (path: seq<nat>)
    requires spec.ValidAddr(a) && spec.ValidAddr(b) && HasBanks(spec) && Meet(a, b, level)
    ensures spec.ValidPath(path) && |path| == level + 1 && Matches(path, a) && Matches(path, b)
  {
    path := seq(level + 1, k requires 0 <= k <= level =>
      if a[k] >= 0 then a[k] else if b[k] >= 0 then b[k] else 0);
  }

  lemma {:induction false} MeetsOn(spec: Spec, path: seq<nat>, a: seq<int>, b: seq<int>)
    requires spec.ValidPath(path) && |a| == |b| == NUM_LEVELS && Matches(path, a) && Matches(path, b)
    ensures Meet(a, b, |path| - 1)
  {
  }

  lemma {:induction false} RankBeside(spec: Spec, a: seq<int>, b: seq<int>) returns (path: seq<nat>)
    requires spec.ValidAddr(a) && spec.ValidAddr(b) && OtherRank(spec.counts[RANK], a, b)
    ensures spec.ValidPath(path) && |path| == RANK + 1 && HitOf(path, a).Sibling? && Matches(path, b)
  {
    var rank := if b[RANK] >= 0 then b[RANK] else if a[RANK] == 0 then 1 else 0;
    path := [b[CHANNEL], rank];
    assert a[RANK] != path[RANK] && a[RANK] != -1;
  }

  lemma {:induction false} BesideOn(spec: Spec, path: seq<nat>, a: seq<int>, b: seq<int>)
    requires spec.ValidAddr(a) && spec.ValidAddr(b)
    requires spec.ValidPath(path) && |path| == RANK + 1 && HitOf(path, a).Sibling? && Matches(path, b)
    ensures OtherRank(spec.counts[RANK], a, b)
  {
  }

  lemma {:induction false} MatchesRank(spec: Spec, path: seq<nat>, a: seq<int>)
    requires spec.ValidAddr(a) && |path| == RANK + 1
    ensures Matches(path, a) <==> NamesRank(a, path[CHANNEL], path[RANK])
  {
  }

  // ------------------------------------------------------------ one row of the table

  /** The indices, in order, of `p` commands to one rank. */
  predicate Picked(trace: seq<Issue>, p: nat, channel: int, rank: int, ks: seq<nat>) {
    && (forall n :: 0 <= n < |ks| ==>
          ks[n] < |trace| && trace[ks[n]].cmd == p && NamesRank(trace[ks[n]].addr, channel, rank))
    && forall m, n :: 0 <= m < n < |ks| ==> ks[m] < ks[n]
  }

  /** Of any `window` earlier `p` commands to a rank that `addr` names, the first is `latency` cycles ago. */
  ghost predicate WindowApart(spec: Spec, p: nat, window: nat, latency: int, trace: seq<Issue>, addr: seq<int>,
                              clk: int)
    requires |spec.counts| == |addr| == NUM_LEVELS
  {
    forall rank: nat, ks: seq<nat> | rank < spec.counts[RANK] && |ks| == window > 0 ::
      NamesRank(addr, addr[CHANNEL], rank) && Picked(trace, p, addr[CHANNEL], rank, ks) ==>
        trace[ks[0]].clk + latency <= clk
  }

  predicate Related(spec: Spec, ts: TimingConsInitializer, a: seq<int>, b: seq<int>)
    requires |spec.counts| == NUM_LEVELS
  {
    if ts.isSibling then OtherRank(spec.counts[RANK], a, b) else Meet(a, b, ts.level)
  }

  /** The row is obeyed by `c` at `clk`. */
  ghost predicate RowOk(spec: Spec, ts: TimingConsInitializer, trace: seq<Issue>, c: nat, addr: seq<int>, clk: int)
    requires |spec.counts| == |addr| == NUM_LEVELS && ts.window >= 1
  {
    c in ts.following ==>
      if ts.window == 1 then
        forall i :: 0 <= i < |trace| && trace[i].cmd in ts.preceding && Related(spec, ts, trace[i].addr, addr) ==>
          trace[i].clk + ts.latency <= clk
      else
        forall p :: p in ts.preceding ==> WindowApart(spec, p, ts.window, ts.latency, trace, addr, clk)
  }

  /** The rows the devices have: windows and siblings at rank level, no row below its command's scope. */
  predicate Shaped(spec: Spec, ts: TimingConsInitializer) {
    && ts.level <= BANK && ts.window >= 1
    && (ts.isSibling ==> ts.level == RANK && ts.window == 1)
    && (ts.window > 1 ==> ts.level == RANK)
    && (forall p :: p in ts.preceding ==> p < spec.NumCmds())
    && (forall f :: f in ts.following ==> f < spec.NumCmds() && ts.level <= spec.scopes[f])
  }

  ghost predicate Tabled(spec: Spec, init: seq<TimingConsInitializer>) {
    && spec.Valid() && HasBanks(spec) && Populates(spec.cons, spec.NumCmds(), init)
    && forall k :: 0 <= k < |init| ==> Shaped(spec, init[k])
  }

  /** Every row is obeyed. */
  ghost predicate Obeyed(spec: Spec, init: seq<TimingConsInitializer>, trace: seq<Issue>, c: nat, addr: seq<int>,
                         clk: int)
    requires |spec.counts| == |addr| == NUM_LEVELS
  {
    forall k :: 0 <= k < |init| ==> init[k].window >= 1 && RowOk(spec, init[k], trace, c, addr, clk)
  }

  function EntryOf(ts: TimingConsInitializer, c: nat): TimingConsEntry {
    TimingConsEntry(c, ts.latency, ClampWindow(ts.window), ts.isSibling)
  }

  lemma {:induction false} RowEntry(spec: Spec, init: seq<TimingConsInitializer>, k: nat, p: nat, c: nat)
    requires Tabled(spec, init) && k < |init| && p in init[k].preceding && c in init[k].following
    ensures |spec.cons| == NUM_LEVELS && |spec.cons[init[k].level]| == spec.NumCmds()
    ensures EntryOf(init[k], c) in spec.cons[init[k].level][p]
  {
    assert Generates(init[k], init[k].level, p, EntryOf(init[k], c));
  }

  // ------------------------------------------------------------ ready commands obey every row

  lemma {:induction false} TargetForced(spec: Spec, init: seq<TimingConsInitializer>, k: nat, trace: seq<Issue>,
                                        c: nat, addr: seq<int>, clk: int, i: nat)
    requires Tabled(spec, init) && ValidTrace(spec, trace) && spec.ValidAddr(addr) && c < spec.NumCmds()
    requires Ready(spec, trace, c, addr, clk) && k < |init| && c in init[k].following
    requires init[k].window == 1 && !init[k].isSibling
    requires i < |trace| && trace[i].cmd in init[k].preceding && Meet(trace[i].addr, addr, init[k].level)
    ensures trace[i].clk + init[k].latency <= clk
  {
    hide Populates, WellFormed;
    var path := CommonPath(spec, trace[i].addr, addr, init[k].level);
    RowEntry(spec, init, k, trace[i].cmd, c);
    CountAtLeast(trace[i..], trace[i].cmd, path, [0]);
    TargetSpacing(spec.cons[|path| - 1], path, trace, c, clk, i, EntryOf(init[k], c));
  }

  lemma {:induction false} SiblingForced(spec: Spec, init: seq<TimingConsInitializer>, k: nat, trace: seq<Issue>,
                                         c: nat, addr: seq<int>, clk: int, i: nat)
    requires Tabled(spec, init) && ValidTrace(spec, trace) && spec.ValidAddr(addr) && c < spec.NumCmds()
    requires Ready(spec, trace, c, addr, clk) && k < |init| && c in init[k].following
    requires init[k].isSibling
    requires i < |trace| && trace[i].cmd in init[k].preceding && OtherRank(spec.counts[RANK], trace[i].addr, addr)
    ensures trace[i].clk + init[k].latency <= clk
  {
    hide Populates, WellFormed;
    var path := RankBeside(spec, trace[i].addr, addr);
    RowEntry(spec, init, k, trace[i].cmd, c);
    SiblingSpacing(spec.cons[|path| - 1], path, trace, c, clk, i, EntryOf(init[k], c));
  }

  lemma {:induction false} WindowForced(spec: Spec, init: seq<TimingConsInitializer>, k: nat, trace: seq<Issue>,
                                        c: nat, addr: seq<int>, clk: int, p: nat, rank: nat, ks: seq<nat>)
    requires Tabled(spec, init) && ValidTrace(spec, trace) && spec.ValidAddr(addr) && c < spec.NumCmds()
    requires Ready(spec, trace, c, addr, clk) && k < |init| && c in init[k].following
    requires init[k].window > 1 && p in init[k].preceding
    requires rank < spec.counts[RANK] && NamesRank(addr, addr[CHANNEL], rank) && |ks| == init[k].window
    requires Picked(trace, p, addr[CHANNEL], rank, ks)
    ensures trace[ks[0]].clk + init[k].latency <= clk
  {
    hide Populates, WellFormed;
    var path: seq<nat> := [addr[CHANNEL], rank];
    MatchesRank(spec, path, addr);
    RowEntry(spec, init, k, p, c);
    PickedCount(spec, trace, p, path, ks);
    TargetSpacing(spec.cons[|path| - 1], path, trace, c, clk, ks[0], EntryOf(init[k], c));
  }

  lemma {:induction false} PickedCount(spec: Spec, trace: seq<Issue>, p: nat, path: seq<nat>, ks: seq<nat>)
    requires ValidTrace(spec, trace) && |path| == RANK + 1 && ks != []
    requires Picked(trace, p, path[CHANNEL], path[RANK], ks)
    ensures ks[0] < |trace| && trace[ks[0]].cmd == p && Matches(path, trace[ks[0]].addr)
    ensures |ks| <= CountTargets(trace[ks[0]..], p, path)
  {
    hide Matches, NamesRank, CountTargets, Spec.ValidAddr;
    var i := ks[0];
    var rel := seq(|ks|, n requires 0 <= n < |ks| => ks[n] - i);
    forall n | 0 <= n < |rel|
      ensures 0 <= rel[n] < |trace[i..]| && trace[i..][rel[n]].cmd == p && Matches(path, trace[i..][rel[n]].addr)
    {
      assert trace[i..][rel[n]] == trace[ks[n]];
      MatchesRank(spec, path, trace[ks[n]].addr);
    }
    MatchesRank(spec, path, trace[i].addr);
    CountAtLeast(trace[i..], p, path, rel);
  }

  lemma {:induction false} RowForced(spec: Spec, init: seq<TimingConsInitializer>, k: nat, trace: seq<Issue>,
                                     c: nat, addr: seq<int>, clk: int)
    requires Tabled(spec, init) && ValidTrace(spec, trace) && spec.ValidAddr(addr) && c < spec.NumCmds()
    requires Ready(spec, trace, c, addr, clk) && k < |init|
    ensures Shaped(spec, init[k]) && RowOk(spec, init[k], trace, c, addr, clk)
  {
    hide Populates, WellFormed, Ready, ValidTrace, Meet, OtherRank, NamesRank;
    if c in init[k].following {
      if init[k].window == 1 {
        forall i | 0 <= i < |trace| && trace[i].cmd in init[k].preceding &&
                   Related(spec, init[k], trace[i].addr, addr)
          ensures trace[i].clk + init[k].latency <= clk
        {
          if init[k].isSibling {
            SiblingForced(spec, init, k, trace, c, addr, clk, i);
          } else {
            TargetForced(spec, init, k, trace, c, addr, clk, i);
          }
        }
      } else {
        forall p | p in init[k].preceding
          ensures WindowApart(spec, p, init[k].window, init[k].latency, trace, addr, clk)
        {
          forall rank: nat, ks: seq<nat> | && rank < spec.counts[RANK] && |ks| == init[k].window > 0
                                           && NamesRank(addr, addr[CHANNEL], rank)
                                           && Picked(trace, p, addr[CHANNEL], rank, ks)
            ensures trace[ks[0]].clk + init[k].latency <= clk
          {
            WindowForced(spec, init, k, trace, c, addr, clk, p, rank, ks);
          }
        }
      }
    }
  }

  // ------------------------------------------------------------ obeying every row is enough

  /** The indices of `p` commands that target the node, most recent first, issued at these clocks. */
  predicate Indexes(ks: seq<nat>, trace: seq<Issue>, p: nat, path: seq<nat>, clocks: seq<int>) {
    && |ks| == |clocks|
    && (forall n :: 0 <= n < |ks| ==> ks[n] < |trace|)
    && (forall n :: 0 <= n < |ks| ==>
          trace[ks[n]].cmd == p && Matches(path, trace[ks[n]].addr) && trace[ks[n]].clk == clocks[n])
    && (forall m, n :: 0 <= m < n < |ks| ==> ks[n] < ks[m])
  }

  lemma {:induction false} IndexesStep(ks: seq<nat>, trace: seq<Issue>, last: Issue, p: nat, path: seq<nat>,
                                       clocks: seq<int>)
    requires Indexes(ks, trace, p, path, clocks)
    ensures Indexes(ks, trace + [last], p, path, clocks)
    ensures last.cmd == p && Matches(path, last.addr) ==>
              Indexes([|trace|] + ks, trace + [last], p, path, [last.clk] + clocks)
  {
    hide Matches;
    var longer := trace + [last];
    assert forall n :: 0 <= n < |ks| ==> longer[ks[n]] == trace[ks[n]];
  }

  lemma {:induction false} TargetIndices(trace: seq<Issue>, p: nat, path: seq<nat>) returns (ks: seq<nat>)
    ensures Indexes(ks, trace, p, path, TargetClocks(trace, p, path))
  {
    hide Matches, TargetClocks;
    if trace == [] {
      ks := [];
      NoTargetClocks(p, path);
    } else {
      var before, last := trace[..|trace| - 1], trace[|trace| - 1];
      assert trace == before + [last];
      ks := TargetIndices(before, p, path);
      IndexesStep(ks, before, last, p, path, TargetClocks(before, p, path));
      PastSnoc(p, path, before, last);
      if last.cmd == p && Matches(path, last.addr) {
        ks := [|before|] + ks;
      } else {
        assert [] + TargetClocks(before, p, path) == TargetClocks(before, p, path);
      }
    }
  }

  lemma {:induction false} SiblingIndex(trace: seq<Issue>, p: nat, path: seq<nat>) returns (i: nat)
    requires LastSibling(trace, p, path).Some?
    ensures i < |trace| && trace[i].cmd == p && HitOf(path, trace[i].addr).Sibling?
    ensures trace[i].clk == LastSibling(trace, p, path).value
  {
    var last := trace[|trace| - 1];
    if last.cmd == p && HitOf(path, last.addr).Sibling? {
      i := |trace| - 1;
    } else {
      i := SiblingIndex(trace[..|trace| - 1], p, path);
    }
  }

  lemma {:induction false} RowOf(spec: Spec, init: seq<TimingConsInitializer>, l: nat, p: nat, e: TimingConsEntry)
    returns (k: nat)
    requires Tabled(spec, init) && l <= BANK
    requires l < |spec.cons| && p < |spec.cons[l]| && e in spec.cons[l][p]
    ensures k < |init| && Shaped(spec, init[k]) && init[k].level == l && p in init[k].preceding
    ensures e.cmd in init[k].following && e == EntryOf(init[k], e.cmd)
  {
    assert Requested(init, l, p, e);
    k :| 0 <= k < |init| && Generates(init[k], l, p, e);
  }

  lemma {:induction false} EntryElapsed(spec: Spec, init: seq<TimingConsInitializer>, trace: seq<Issue>,
                                        c: nat, addr: seq<int>, clk: int, path: seq<nat>, p: nat, e: TimingConsEntry)
    requires Tabled(spec, init) && ValidTrace(spec, trace) && spec.ValidAddr(addr)
    requires Obeyed(spec, init, trace, c, addr, clk)
    requires spec.ValidPath(path) && Matches(path, addr) && |path| <= |spec.cons|
    requires Constrains(spec.cons[|path| - 1], p, e, c, path, trace)
    ensures Past(e, p, path, trace).value + e.val <= clk
  {
    hide Populates, WellFormed, Matches, TargetClocks, LastSibling, HitOf, Meet, Picked, OtherRank, WindowApart;
    var k := RowOf(spec, init, |path| - 1, p, e);
    assert RowOk(spec, init[k], trace, c, addr, clk);
    if e.sibling {
      var i := SiblingIndex(trace, p, path);
      BesideOn(spec, path, trace[i].addr, addr);
      assert Related(spec, init[k], trace[i].addr, addr);
    } else {
      var ks := TargetIndices(trace, p, path);
      if e.window == 1 {
        MeetsOn(spec, path, trace[ks[0]].addr, addr);
        assert Related(spec, init[k], trace[ks[0]].addr, addr);
      } else {
        WindowElapsed(spec, trace, addr, clk, path, p, ks[..e.window], e.val);
      }
    }
  }

  lemma {:induction false} WindowElapsed(spec: Spec, trace: seq<Issue>, addr: seq<int>, clk: int, path: seq<nat>,
                                         p: nat, ks: seq<nat>, latency: int)
    requires spec.ValidAddr(addr) && spec.ValidPath(path) && |path| == RANK + 1 && Matches(path, addr)
    requires ks != [] && WindowApart(spec, p, |ks|, latency, trace, addr, clk)
    requires forall n :: 0 <= n < |ks| ==>
               && ks[n] < |trace| && trace[ks[n]].cmd == p && Matches(path, trace[ks[n]].addr)
               && spec.ValidAddr(trace[ks[n]].addr)
    requires forall m, n :: 0 <= m < n < |ks| ==> ks[n] < ks[m]
    ensures trace[ks[|ks| - 1]].clk + latency <= clk
  {
    hide Matches, NamesRank;
    var up := seq(|ks|, n requires 0 <= n < |ks| => ks[|ks| - 1 - n]);
    MatchesRank(spec, path, addr);
    ChannelNamed(spec, path, addr);
    forall n | 0 <= n < |up|
      ensures NamesRank(trace[up[n]].addr, addr[CHANNEL], path[RANK])
    {
      MatchesRank(spec, path, trace[up[n]].addr);
    }
    assert Picked(trace, p, addr[CHANNEL], path[RANK], up);
  }

  lemma {:induction false} ChannelNamed(spec: Spec, path: seq<nat>, addr: seq<int>)
    requires spec.ValidAddr(addr) && spec.ValidPath(path) && |path| == RANK + 1 && Matches(path, addr)
    ensures addr[CHANNEL] == path[CHANNEL]
  {
  }

  /** A command is ready exactly when it obeys every row of the initializer list. */
  lemma {:induction false} ReadyIffRows(spec: Spec, init: seq<TimingConsInitializer>, trace: seq<Issue>,
                                        c: nat, addr: seq<int>, clk: int)
    requires Tabled(spec, init) && ValidTrace(spec, trace) && spec.ValidAddr(addr) && c < spec.NumCmds()
    ensures Ready(spec, trace, c, addr, clk) <==> Obeyed(spec, init, trace, c, addr, clk)
  {
    hide RowOk, ValidTrace, Past, Matches, Populates, HasBanks;
    if Ready(spec, trace, c, addr, clk) {
      forall k | 0 <= k < |init|
        ensures Shaped(spec, init[k]) && RowOk(spec, init[k], trace, c, addr, clk)
      {
        RowForced(spec, init, k, trace, c, addr, clk);
      }
    }
    if Obeyed(spec, init, trace, c, addr, clk) {
      forall path | spec.ValidPath(path) && Matches(path, addr) && |path| - 1 <= spec.scopes[c]
        ensures Allows(spec.cons[|path| - 1], path, trace, c, clk)
      {
        forall p: nat, e | Constrains(spec.cons[|path| - 1], p, e, c, path, trace)
          ensures Past(e, p, path, trace).value + e.val <= clk
        {
          EntryElapsed(spec, init, trace, c, addr, clk, path, p, e);
        }
      }
    }
  }

  // ------------------------------------------------------------ rows of one level together

  predicate Holds(ts: TimingConsInitializer, p: nat, c: nat, gap: int) {
    p in ts.preceding && c in ts.following ==> ts.latency <= gap
  }

  /** What the rows ask of the gap between a `p` and a later `c`. */
  predicate RowsHold(rows: seq<TimingConsInitializer>, p: nat, c: nat, gap: int) {
    forall k :: 0 <= k < |rows| ==> Holds(rows[k], p, c, gap)
  }

  predicate OnLevel(rows: seq<TimingConsInitializer>, level: nat) {
    forall k :: 0 <= k < |rows| ==> rows[k].level == level && rows[k].window == 1 && !rows[k].isSibling
  }

  predicate BetweenRanks(rows: seq<TimingConsInitializer>) {
    forall k :: 0 <= k < |rows| ==> rows[k].level == RANK && rows[k].window == 1 && rows[k].isSibling
  }

  lemma {:induction false} LevelObeyed(spec: Spec, rows: seq<TimingConsInitializer>, level: nat, trace: seq<Issue>,
                                       c: nat, addr: seq<int>, clk: int)
    requires |spec.counts| == |addr| == NUM_LEVELS && OnLevel(rows, level)
    ensures Obeyed(spec, rows, trace, c, addr, clk) <==>
            forall i :: 0 <= i < |trace| && Meet(trace[i].addr, addr, level) ==>
              RowsHold(rows, trace[i].cmd, c, clk - trace[i].clk)
  {
    hide Meet;
    if Obeyed(spec, rows, trace, c, addr, clk) {
      forall i, k | 0 <= i < |trace| && Meet(trace[i].addr, addr, level) && 0 <= k < |rows|
        ensures Holds(rows[k], trace[i].cmd, c, clk - trace[i].clk)
      {
        assert RowOk(spec, rows[k], trace, c, addr, clk);
        assert Related(spec, rows[k], trace[i].addr, addr);
      }
    }
    if forall i :: 0 <= i < |trace| && Meet(trace[i].addr, addr, level) ==>
         RowsHold(rows, trace[i].cmd, c, clk - trace[i].clk) {
      forall k, i | 0 <= k < |rows| && 0 <= i < |trace| && Meet(trace[i].addr, addr, level)
        ensures Holds(rows[k], trace[i].cmd, c, clk - trace[i].clk)
      {
        assert RowsHold(rows, trace[i].cmd, c, clk - trace[i].clk);
      }
    }
  }

  lemma {:induction false} RanksObeyed(spec: Spec, rows: seq<TimingConsInitializer>, trace: seq<Issue>,
                                       c: nat, addr: seq<int>, clk: int)
    requires |spec.counts| == |addr| == NUM_LEVELS && BetweenRanks(rows)
    ensures Obeyed(spec, rows, trace, c, addr, clk) <==>
            forall i :: 0 <= i < |trace| && OtherRank(spec.counts[RANK], trace[i].addr, addr) ==>
              RowsHold(rows, trace[i].cmd, c, clk - trace[i].clk)
  {
    hide OtherRank;
    if Obeyed(spec, rows, trace, c, addr, clk) {
      forall i, k | && 0 <= i < |trace| && 0 <= k < |rows|
                    && OtherRank(spec.counts[RANK], trace[i].addr, addr)
        ensures Holds(rows[k], trace[i].cmd, c, clk - trace[i].clk)
      {
        assert RowOk(spec, rows[k], trace, c, addr, clk);
        assert Related(spec, rows[k], trace[i].addr, addr);
      }
    }
    if forall i :: 0 <= i < |trace| && OtherRank(spec.counts[RANK], trace[i].addr, addr) ==>
         RowsHold(rows, trace[i].cmd, c, clk - trace[i].clk) {
      forall k, i | && 0 <= k < |rows| && 0 <= i < |trace|
                    && OtherRank(spec.counts[RANK], trace[i].addr, addr)
        ensures Holds(rows[k], trace[i].cmd, c, clk - trace[i].clk)
      {
        assert RowsHold(rows, trace[i].cmd, c, clk - trace[i].clk);
      }
    }
  }

  lemma {:induction false} WindowObeyed(spec: Spec, act: nat, latency: int, trace: seq<Issue>, c: nat,
                                        addr: seq<int>, clk: int)
    requires |spec.counts| == |addr| == NUM_LEVELS
    ensures Obeyed(spec, [FourActivates(act, latency)], trace, c, addr, clk) <==>
            (c == act ==> WindowApart(spec, act, 4, latency, trace, addr, clk))
  {
    hide WindowApart;
    var rows := [FourActivates(act, latency)];
    assert rows[0] == FourActivates(act, latency);
    assert act in rows[0].preceding;
  }

  lemma {:induction false} ObeyedConcat(spec: Spec, a: seq<TimingConsInitializer>, b: seq<TimingConsInitializer>,
                                        trace: seq<Issue>, c: nat, addr: seq<int>, clk: int)
    requires |spec.counts| == |addr| == NUM_LEVELS
    ensures Obeyed(spec, a + b, trace, c, addr, clk) <==>
            Obeyed(spec, a, trace, c, addr, clk) && Obeyed(spec, b, trace, c, addr, clk)
  {
    hide RowOk;
    var s := a + b;
    assert forall k :: 0 <= k < |a| ==> s[k] == a[k];
    assert forall k :: 0 <= k < |b| ==> s[|a| + k] == b[k];
  }
}
