/**
 * Timing of one node of the device tree (dram/node.h), as a function of the node's path, and the
 * declarative rule over the whole command trace that it must implement.
 */
module DramTiming {
  import opened Wrappers
  import opened DramSpec

  datatype Issue = Issue(cmd: nat, addr: seq<int>, clk: int)

  /** The entries of one level, by preceding command. */
  type LevelCons = seq<seq<TimingConsEntry>>

  /** What a node stores: the next ready clock and the issue history of every command. */
  datatype Cell = Cell(ready: seq<int>, hist: seq<seq<int>>)

  /** The first `k` components of the path agree with the address, -1 being a wildcard. */
  predicate Agrees(path: seq<nat>, k: int, addr: seq<int>) {
    0 <= k <= |path| && k <= |addr| && forall l :: 0 <= l < k ==> addr[l] == path[l] || addr[l] == -1
  }

  /** The addressed nodes. */
  predicate Matches(path: seq<nat>, addr: seq<int>) {
    Agrees(path, |path|, addr)
  }

  datatype Hit = Target | Sibling | Miss

  /** How an update that starts at the addressed channel reaches the node at `path`. */
  function HitOf(path: seq<nat>, addr: seq<int>): Hit {
    if Matches(path, addr) then Target
    else if 1 < |path| <= |addr| && Agrees(path, |path| - 1, addr) then Sibling
    else Miss
  }

  // ------------------------------------------------------------ incremental form

  predicate EntryFits(e: TimingConsEntry, window: nat, numCmds: nat) {
    e.cmd < numCmds && (!e.sibling ==> 1 <= e.window <= window)
  }

  predicate EntriesFit(es: seq<TimingConsEntry>, window: nat, numCmds: nat) {
    forall e :: e in es ==> EntryFits(e, window, numCmds)
  }

  predicate CellFits(lvl: LevelCons, cell: Cell) {
    && |cell.ready| == |lvl| == |cell.hist|
    && forall p :: 0 <= p < |lvl| ==> EntriesFit(lvl[p], |cell.hist[p]|, |lvl|)
  }

  /** The clock that entry `e` asks its command to wait for, when it asks for one. */
  function Contribution(e: TimingConsEntry, hit: Hit, hist: seq<int>, clk: int): Option<int> {
    if hit.Sibling? && e.sibling then Some(clk + e.val)
    else if hit.Target? && !e.sibling && 1 <= e.window <= |hist| && hist[e.window - 1] >= 0 then
      Some(hist[e.window - 1] + e.val)
    else None
  }

  function Relax(es: seq<TimingConsEntry>, hit: Hit, hist: seq<int>, clk: int, ready: seq<int>): (r: seq<int>)
    ensures |r| == |ready|
  {
    if es == [] then ready
    else
      var e := es[|es| - 1];
      var r := Relax(es[..|es| - 1], hit, hist, clk, ready);
      match Contribution(e, hit, hist, clk)
      case None => r
      case Some(future) => if e.cmd < |r| then r[e.cmd := Max(r[e.cmd], future)] else r
  }

  function Push(h: seq<int>, clk: int): (r: seq<int>)
    ensures |r| == |h|
  {
    if h == [] then h else [clk] + h[..|h| - 1]
  }

  /** The update of a single node by one issued command. */
  function StepCell(lvl: LevelCons, path: seq<nat>, iss: Issue, cell: Cell): Cell {
    if !(iss.cmd < |lvl| == |cell.hist|) then cell
    else
      var es, h := lvl[iss.cmd], cell.hist[iss.cmd];
      match HitOf(path, iss.addr)
      case Miss => cell
      case Sibling => Cell(Relax(es, Sibling, h, iss.clk, cell.ready), cell.hist)
      case Target =>
        var h' := Push(h, iss.clk);
        Cell(Relax(es, Target, h', iss.clk, cell.ready), cell.hist[iss.cmd := h'])
  }

  /** The longest window asked for, which is the length of the history kept. */
  function MaxWindow(es: seq<TimingConsEntry>): (w: nat)
    ensures forall e :: e in es ==> e.window <= w
    ensures w == 0 || exists e :: e in es && e.window == w
  {
    if es == [] then 0
    else
      var w := MaxWindow(es[..|es| - 1]);
      assert forall e :: e in es ==> e in es[..|es| - 1] || e == es[|es| - 1];
      if w < es[|es| - 1].window then es[|es| - 1].window else w
  }

  ghost predicate LevelOk(lvl: LevelCons) {
    forall p, e :: 0 <= p < |lvl| && e in lvl[p] ==> e.cmd < |lvl| && (!e.sibling ==> e.window >= 1)
  }

  function InitCell(lvl: LevelCons): Cell {
    Cell(seq(|lvl|, _ => -1),
         seq(|lvl|, p requires 0 <= p < |lvl| => seq(MaxWindow(lvl[p]), _ => -1)))
  }

  /** The incremental state of the node at `path` after a whole trace. */
  function Replay(lvl: LevelCons, path: seq<nat>, trace: seq<Issue>): Cell {
    if trace == [] then InitCell(lvl)
    else StepCell(lvl, path, trace[|trace| - 1], Replay(lvl, path, trace[..|trace| - 1]))
  }

  /** One ready clock per command, and for each as long a history as the table asks for. */
  predicate Sized(lvl: LevelCons, cell: Cell) {
    && |cell.ready| == |lvl| == |cell.hist|
    && forall p :: 0 <= p < |lvl| ==> |cell.hist[p]| == MaxWindow(lvl[p])
  }

  lemma {:induction false} ReplayFits(lvl: LevelCons, path: seq<nat>, trace: seq<Issue>)
    ensures Sized(lvl, Replay(lvl, path, trace))
    ensures LevelOk(lvl) ==> CellFits(lvl, Replay(lvl, path, trace))
  {
    if trace != [] {
      ReplayFits(lvl, path, trace[..|trace| - 1]);
    }
  }

  predicate NodeReady(cell: Cell, c: nat, clk: int) {
    c < |cell.ready| && !(cell.ready[c] != -1 && clk < cell.ready[c])
  }

  // ------------------------------------------------------------ declarative rule

  predicate Chronological(trace: seq<Issue>) {
    && (forall i :: 0 <= i < |trace| ==> 0 <= trace[i].clk)
    && (forall i, j :: 0 <= i < j < |trace| ==> trace[i].clk <= trace[j].clk)
  }

  /** Issue clocks of the `p` commands that targeted the node, most recent first. */
  function TargetClocks(trace: seq<Issue>, p: nat, path: seq<nat>): seq<int> {
    if trace == [] then []
    else
      var last := trace[|trace| - 1];
      var rest := TargetClocks(trace[..|trace| - 1], p, path);
      if last.cmd == p && Matches(path, last.addr) then [last.clk] + rest else rest
  }

  /** Issue clock of the most recent `p` command that addressed a sibling of the node. */
  function LastSibling(trace: seq<Issue>, p: nat, path: seq<nat>): Option<int> {
    if trace == [] then None
    else
      var last := trace[|trace| - 1];
      if last.cmd == p && HitOf(path, last.addr).Sibling? then Some(last.clk)
      else LastSibling(trace[..|trace| - 1], p, path)
  }

  /** The issue an entry measures from: the window-th most recent target, or the latest sibling. */
  function Past(e: TimingConsEntry, p: nat, path: seq<nat>, trace: seq<Issue>): Option<int> {
    if e.sibling then LastSibling(trace, p, path)
    else
      var clocks := TargetClocks(trace, p, path);
      if 1 <= e.window <= |clocks| then Some(clocks[e.window - 1]) else None
  }

  ghost predicate Constrains(lvl: LevelCons, p: nat, e: TimingConsEntry, c: nat, path: seq<nat>, trace: seq<Issue>) {
    p < |lvl| && e in lvl[p] && e.cmd == c && Past(e, p, path, trace).Some?
  }

  /** `r` is the latest clock any constraint on `c` asks for, and -1 when that is less or there is none. */
  ghost predicate IsReadyClock(r: int, lvl: LevelCons, path: seq<nat>, trace: seq<Issue>, c: nat) {
    && -1 <= r
    && (forall p: nat, e :: Constrains(lvl, p, e, c, path, trace) ==> Past(e, p, path, trace).value + e.val <= r)
    && (|| r == -1
        || exists p: nat, e :: Constrains(lvl, p, e, c, path, trace) && Past(e, p, path, trace).value + e.val == r)
  }

  /** The rule: at `clk`, every constraint on `c` at this node has elapsed. */
  ghost predicate Allows(lvl: LevelCons, path: seq<nat>, trace: seq<Issue>, c: nat, clk: int) {
    forall p: nat, e :: Constrains(lvl, p, e, c, path, trace) ==> Past(e, p, path, trace).value + e.val <= clk
  }

  /** The history is exactly the most recent target clocks, padded with -1. */
  predicate IsHistory(h: seq<int>, clocks: seq<int>) {
    forall k :: 0 <= k < |h| ==> h[k] == if k < |clocks| then clocks[k] else -1
  }

  ghost predicate Refines(lvl: LevelCons, cell: Cell, path: seq<nat>, trace: seq<Issue>) {
    && CellFits(lvl, cell)
    && (forall c :: 0 <= c < |lvl| ==> IsReadyClock(cell.ready[c], lvl, path, trace, c))
    && (forall p :: 0 <= p < |lvl| ==> IsHistory(cell.hist[p], TargetClocks(trace, p, path)))
  }

  // ------------------------------------------------------------ proofs

  lemma {:induction false} RelaxIsMax(
      es: seq<TimingConsEntry>, hit: Hit, hist: seq<int>, clk: int, ready: seq<int>, c: nat)
    requires c < |ready|
    ensures ready[c] <= Relax(es, hit, hist, clk, ready)[c]
    ensures forall e :: e in es && e.cmd == c && Contribution(e, hit, hist, clk).Some? ==>
              Contribution(e, hit, hist, clk).value <= Relax(es, hit, hist, clk, ready)[c]
    ensures || Relax(es, hit, hist, clk, ready)[c] == ready[c]
            || exists e :: && e in es && e.cmd == c && Contribution(e, hit, hist, clk).Some?
                           && Contribution(e, hit, hist, clk).value == Relax(es, hit, hist, clk, ready)[c]
  {
    if es != [] {
      var init := es[..|es| - 1];
      assert forall e :: e in es <==> e in init || e == es[|es| - 1];
      RelaxIsMax(init, hit, hist, clk, ready, c);
    }
  }

  lemma {:induction false} TargetClocksBounded(trace: seq<Issue>, p: nat, path: seq<nat>)
    requires Chronological(trace)
    ensures forall k :: 0 <= k < |TargetClocks(trace, p, path)| ==>
              0 <= TargetClocks(trace, p, path)[k] <= trace[|trace| - 1].clk
    ensures forall j, k :: 0 <= j < k < |TargetClocks(trace, p, path)| ==>
              TargetClocks(trace, p, path)[k] <= TargetClocks(trace, p, path)[j]
  {
    if trace != [] {
      TargetClocksBounded(trace[..|trace| - 1], p, path);
    }
  }

  lemma {:induction false} LastSiblingBounded(trace: seq<Issue>, p: nat, path: seq<nat>)
    requires Chronological(trace) && LastSibling(trace, p, path).Some?
    ensures trace != [] && 0 <= LastSibling(trace, p, path).value <= trace[|trace| - 1].clk
  {
    var last := trace[|trace| - 1];
    if !(last.cmd == p && HitOf(path, last.addr).Sibling?) {
      LastSiblingBounded(trace[..|trace| - 1], p, path);
    }
  }

  lemma {:induction false} PastSnoc(p: nat, path: seq<nat>, trace: seq<Issue>, iss: Issue)
    ensures TargetClocks(trace + [iss], p, path) ==
              (if iss.cmd == p && Matches(path, iss.addr) then [iss.clk] else []) + TargetClocks(trace, p, path)
    ensures LastSibling(trace + [iss], p, path) ==
              if iss.cmd == p && HitOf(path, iss.addr).Sibling? then Some(iss.clk) else LastSibling(trace, p, path)
  {
    assert (trace + [iss])[..|trace|] == trace;
  }

  /** The last issue moves no constraint backwards, and its own level entries see exactly what they contribute. */
  lemma {:induction false} PastAfterIssue(e: TimingConsEntry, p: nat, path: seq<nat>, trace: seq<Issue>, iss: Issue,
                                          h: seq<int>)
    requires Chronological(trace + [iss])
    requires !e.sibling ==> 1 <= e.window <= |h|
    requires IsHistory(h, TargetClocks(trace + [iss], p, path))
    ensures p != iss.cmd ==> Past(e, p, path, trace + [iss]) == Past(e, p, path, trace)
    ensures var hit := HitOf(path, iss.addr);
            p == iss.cmd && Contribution(e, hit, h, iss.clk).Some? ==>
              && Past(e, p, path, trace + [iss]).Some?
              && Past(e, p, path, trace + [iss]).value + e.val == Contribution(e, hit, h, iss.clk).value
    ensures var hit := HitOf(path, iss.addr);
            p == iss.cmd && Contribution(e, hit, h, iss.clk).None? ==>
              Past(e, p, path, trace + [iss]) == Past(e, p, path, trace)
    ensures Past(e, p, path, trace).Some? ==>
              && Past(e, p, path, trace + [iss]).Some?
              && Past(e, p, path, trace).value <= Past(e, p, path, trace + [iss]).value
  {
    hide TargetClocks, LastSibling;
    PastSnoc(p, path, trace, iss);
    assert Chronological(trace) by {
      assert forall i :: 0 <= i < |trace| ==> trace[i] == (trace + [iss])[i];
    }
    TargetClocksBounded(trace, p, path);
    TargetClocksBounded(trace + [iss], p, path);
    if LastSibling(trace, p, path).Some? {
      LastSiblingBounded(trace, p, path);
      assert trace[|trace| - 1] == (trace + [iss])[|trace| - 1];
      assert (trace + [iss])[|trace|] == iss;
    }
    var before, after := TargetClocks(trace, p, path), TargetClocks(trace + [iss], p, path);
    if 1 <= e.window <= |before| < |after| {
      assert after[e.window] == before[e.window - 1];
    }
  }

  lemma {:induction false} HistoryAfterIssue(h: seq<int>, trace: seq<Issue>, iss: Issue, p: nat, path: seq<nat>)
    requires IsHistory(h, TargetClocks(trace, p, path))
    ensures var h' := if p == iss.cmd && HitOf(path, iss.addr).Target? then Push(h, iss.clk) else h;
            IsHistory(h', TargetClocks(trace + [iss], p, path))
  {
    assert (trace + [iss])[..|trace|] == trace;
  }

  /** One issued command keeps the incremental form equal to the rule. */
  lemma {:induction false} StepRefines(lvl: LevelCons, cell: Cell, path: seq<nat>, trace: seq<Issue>, iss: Issue)
    requires Refines(lvl, cell, path, trace) && iss.cmd < |lvl|
    requires Chronological(trace + [iss])
    ensures Refines(lvl, StepCell(lvl, path, iss, cell), path, trace + [iss])
  {
    var cell' := StepCell(lvl, path, iss, cell);
    forall p | 0 <= p < |lvl|
      ensures IsHistory(cell'.hist[p], TargetClocks(trace + [iss], p, path))
    {
      HistoryAfterIssue(cell.hist[p], trace, iss, p, path);
    }
    forall c | 0 <= c < |lvl|
      ensures IsReadyClock(cell'.ready[c], lvl, path, trace + [iss], c)
    {
      StepReadyClock(lvl, cell, path, trace, iss, c);
    }
  }

  lemma {:induction false} StepReadyClock(lvl: LevelCons, cell: Cell, path: seq<nat>, trace: seq<Issue>, iss: Issue,
                                          c: nat)
    requires CellFits(lvl, cell) && iss.cmd < |lvl| && c < |lvl|
    requires IsReadyClock(cell.ready[c], lvl, path, trace, c)
    requires Chronological(trace + [iss])
    requires var cell' := StepCell(lvl, path, iss, cell);
             forall p :: 0 <= p < |lvl| ==> IsHistory(cell'.hist[p], TargetClocks(trace + [iss], p, path))
    ensures IsReadyClock(StepCell(lvl, path, iss, cell).ready[c], lvl, path, trace + [iss], c)
  {
    var cell' := StepCell(lvl, path, iss, cell);
    var trace' := trace + [iss];
    var hit, es, h := HitOf(path, iss.addr), lvl[iss.cmd], cell'.hist[iss.cmd];
    if hit.Miss? {
      assert Relax([], Miss, h, iss.clk, cell.ready) == cell.ready;
    } else {
      RelaxIsMax(es, hit, h, iss.clk, cell.ready, c);
    }
    var r, r' := cell.ready[c], cell'.ready[c];
    forall p: nat, e | Constrains(lvl, p, e, c, path, trace')
      ensures Past(e, p, path, trace').value + e.val <= r'
    {
      PastAfterIssue(e, p, path, trace, iss, cell'.hist[p]);
      if Past(e, p, path, trace') == Past(e, p, path, trace) {
        assert Constrains(lvl, p, e, c, path, trace);
      }
    }
    if r' != -1 {
      if r' == r {
        var p: nat, e :| Constrains(lvl, p, e, c, path, trace) && Past(e, p, path, trace).value + e.val == r;
        PastAfterIssue(e, p, path, trace, iss, cell'.hist[p]);
        assert Constrains(lvl, p, e, c, path, trace');
      } else {
        var e :| && e in es && e.cmd == c && Contribution(e, hit, h, iss.clk).Some?
                 && Contribution(e, hit, h, iss.clk).value == r';
        PastAfterIssue(e, iss.cmd, path, trace, iss, h);
        assert Constrains(lvl, iss.cmd, e, c, path, trace');
      }
    }
  }

  /**
   * Refinement of the whole trace: each ready clock is the maximum over the node's constraints, and
   * the history holds exactly the last `window` issue clocks.
   */
  lemma {:induction false} ReplayRefines(lvl: LevelCons, path: seq<nat>, trace: seq<Issue>)
    requires LevelOk(lvl) && Chronological(trace)
    requires forall i :: 0 <= i < |trace| ==> trace[i].cmd < |lvl|
    ensures Refines(lvl, Replay(lvl, path, trace), path, trace)
  {
    if trace != [] {
      var prefix := trace[..|trace| - 1];
      ReplayRefines(lvl, path, prefix);
      assert trace == prefix + [trace[|trace| - 1]];
      StepRefines(lvl, Replay(lvl, path, prefix), path, prefix, trace[|trace| - 1]);
    }
  }

  /** The stored ready clock decides the declarative rule. */
  lemma {:induction false} NodeReadyIffAllows(lvl: LevelCons, path: seq<nat>, trace: seq<Issue>, c: nat, clk: int)
    requires LevelOk(lvl) && Chronological(trace) && c < |lvl| && 0 <= clk
    requires forall i :: 0 <= i < |trace| ==> trace[i].cmd < |lvl|
    ensures NodeReady(Replay(lvl, path, trace), c, clk) <==> Allows(lvl, path, trace, c, clk)
  {
    ReplayRefines(lvl, path, trace);
    var r := Replay(lvl, path, trace).ready[c];
    assert IsReadyClock(r, lvl, path, trace, c);
  }

  // ------------------------------------------------------------ what the rule means between two commands

  /** How many of the issues in the trace are `p` commands that target the node. */
  function CountTargets(trace: seq<Issue>, p: nat, path: seq<nat>): nat {
    |TargetClocks(trace, p, path)|
  }

  lemma {:induction false} TargetClocksSnoc(a: seq<Issue>, x: Issue, p: nat, path: seq<nat>)
    ensures TargetClocks(a + [x], p, path) == TargetClocks([x], p, path) + TargetClocks(a, p, path)
  {
    assert (a + [x])[..|a|] == a && [x][..0] == [];
  }

  lemma {:induction false} NoTargetClocks(p: nat, path: seq<nat>)
    ensures TargetClocks([], p, path) == []
  {
  }

  lemma {:induction false} OneTargetClock(iss: Issue, path: seq<nat>)
    requires Matches(path, iss.addr)
    ensures TargetClocks([iss], iss.cmd, path) == [iss.clk]
  {
    assert [iss][..0] == [];
  }

  lemma {:induction false} TargetClocksConcat(a: seq<Issue>, b: seq<Issue>, p: nat, path: seq<nat>)
    ensures TargetClocks(a + b, p, path) == TargetClocks(b, p, path) + TargetClocks(a, p, path)
  {
    hide TargetClocks;
    if b == [] {
      assert a + b == a;
      NoTargetClocks(p, path);
    } else {
      var b', x := b[..|b| - 1], b[|b| - 1];
      TargetClocksConcat(a, b', p, path);
      TargetClocksSnoc(a + b', x, p, path);
      TargetClocksSnoc(b', x, p, path);
      assert a + b == a + b' + [x] && b == b' + [x];
    }
  }

  /**
   * If the rule allows `c` now, then every entry p -> c keeps its distance from each earlier `p`
   * that was followed, itself included, by at least `window` targets.
   */
  lemma {:induction false} TargetSpacing(lvl: LevelCons, path: seq<nat>, trace: seq<Issue>, c: nat, clk: int, i: nat,
                                         e: TimingConsEntry)
    requires Chronological(trace) && Allows(lvl, path, trace, c, clk)
    requires i < |trace| && trace[i].cmd < |lvl| && Matches(path, trace[i].addr)
    requires e in lvl[trace[i].cmd] && e.cmd == c && !e.sibling && 1 <= e.window
    requires e.window <= CountTargets(trace[i..], trace[i].cmd, path)
    ensures trace[i].clk + e.val <= clk
  {
    hide TargetClocks;
    var p := trace[i].cmd;
    var a, m, b := trace[..i], [trace[i]], trace[i + 1..];
    assert trace == a + (m + b) && trace[i..] == m + b;
    TargetClocksConcat(a, m + b, p, path);
    TargetClocksConcat(m, b, p, path);
    OneTargetClock(trace[i], path);
    var clocks := TargetClocks(trace, p, path);
    var k := |TargetClocks(b, p, path)|;
    assert clocks[k] == trace[i].clk;
    TargetClocksBounded(trace, p, path);
    assert clocks[k] <= clocks[e.window - 1];
    assert Constrains(lvl, p, e, c, path, trace);
  }

  lemma {:induction false} LastSiblingAfter(trace: seq<Issue>, p: nat, path: seq<nat>, i: nat)
    requires Chronological(trace) && i < |trace| && trace[i].cmd == p && HitOf(path, trace[i].addr).Sibling?
    ensures LastSibling(trace, p, path).Some? && trace[i].clk <= LastSibling(trace, p, path).value
  {
    var last := trace[|trace| - 1];
    if !(last.cmd == p && HitOf(path, last.addr).Sibling?) {
      LastSiblingAfter(trace[..|trace| - 1], p, path, i);
    }
  }

  /** The same for sibling entries, which count the latest issue to a sibling only. */
  lemma {:induction false} SiblingSpacing(lvl: LevelCons, path: seq<nat>, trace: seq<Issue>, c: nat, clk: int,
                                          i: nat, e: TimingConsEntry)
    requires Chronological(trace) && Allows(lvl, path, trace, c, clk)
    requires i < |trace| && trace[i].cmd < |lvl| && HitOf(path, trace[i].addr).Sibling?
    requires e in lvl[trace[i].cmd] && e.cmd == c && e.sibling
    ensures trace[i].clk + e.val <= clk
  {
    LastSiblingAfter(trace, trace[i].cmd, path, i);
    assert Constrains(lvl, trace[i].cmd, e, c, path, trace);
  }
}
