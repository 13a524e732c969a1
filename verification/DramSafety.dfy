/** What every run keeps: timing between any two commands, and banks in refresh. */
module DramSafety {
  import opened Wrappers
  import opened DramSpec
  import opened DramTiming
  import opened DramNode
  import opened DramRule
  import opened DramRun

  /** Every command was ready when it was issued. */
  ghost predicate Guarded(spec: Spec, trace: seq<Issue>)
    requires spec.Valid() && ValidTrace(spec, trace)
  {
    forall j :: 0 <= j < |trace| ==> Ready(spec, trace[..j], trace[j].cmd, trace[j].addr, trace[j].clk)
  }

  /**
   * Run-level timing safety: in a guarded run no entry of the table is violated between any two
   * commands that meet at a node. An entry with window w binds the earlier command once w targets
   * have followed it, itself included.
   */
  lemma {:induction false} RunSpacing(spec: Spec, trace: seq<Issue>, i: nat, j: nat, path: seq<nat>, e: TimingConsEntry)
    requires spec.Valid() && ValidTrace(spec, trace) && Guarded(spec, trace)
    requires i < j < |trace|
    requires spec.ValidPath(path) && Matches(path, trace[j].addr) && |path| - 1 <= spec.scopes[trace[j].cmd]
    requires e in spec.cons[|path| - 1][trace[i].cmd] && e.cmd == trace[j].cmd
    requires if e.sibling then HitOf(path, trace[i].addr).Sibling?
             else Matches(path, trace[i].addr) && e.window <= CountTargets(trace[i..j], trace[i].cmd, path)
    ensures trace[i].clk + e.val <= trace[j].clk
  {
    var lvl, before := spec.cons[|path| - 1], trace[..j];
    assert Ready(spec, before, trace[j].cmd, trace[j].addr, trace[j].clk);
    assert before[i..] == trace[i..j];
    if e.sibling {
      SiblingSpacing(lvl, path, before, trace[j].cmd, trace[j].clk, i, e);
    } else {
      TargetSpacing(lvl, path, before, trace[j].cmd, trace[j].clk, i, e);
    }
  }

  lemma {:induction false} CountAtLeast(trace: seq<Issue>, p: nat, path: seq<nat>, ks: seq<nat>)
    requires forall n :: 0 <= n < |ks| ==> ks[n] < |trace| && trace[ks[n]].cmd == p && Matches(path, trace[ks[n]].addr)
    requires forall m, n :: 0 <= m < n < |ks| ==> ks[m] < ks[n]
    ensures |ks| <= CountTargets(trace, p, path)
  {
    if ks != [] {
      var k := ks[|ks| - 1];
      var a, b := trace[..k], trace[k..];
      assert a + b == trace;
      TargetClocksConcat(a, b, p, path);
      CountAtLeast(a, p, path, ks[..|ks| - 1]);
      var m, c := [trace[k]], trace[k + 1..];
      assert b == m + c;
      TargetClocksConcat(m, c, p, path);
      assert m[..0] == [] && TargetClocks(m, p, path) == [trace[k].clk];
    }
  }

  /** Any `e.window + 1` commands of one kind at a node span at least `e.val` cycles. */
  lemma {:induction false} WindowSpan(spec: Spec, trace: seq<Issue>, ks: seq<nat>, path: seq<nat>, e: TimingConsEntry)
    requires spec.Valid() && ValidTrace(spec, trace) && Guarded(spec, trace)
    requires !e.sibling && |ks| == e.window + 1 && e.window >= 1
    requires forall m, n :: 0 <= m < n < |ks| ==> ks[m] < ks[n]
    requires forall n :: 0 <= n < |ks| ==>
               ks[n] < |trace| && trace[ks[n]].cmd == e.cmd && Matches(path, trace[ks[n]].addr)
    requires e.cmd < spec.NumCmds() && spec.ValidPath(path) && |path| - 1 <= spec.scopes[e.cmd]
    requires e in spec.cons[|path| - 1][e.cmd]
    ensures trace[ks[0]].clk + e.val <= trace[ks[e.window]].clk
  {
    var i, j := ks[0], ks[e.window];
    var part := trace[i..j];
    var rel := seq(e.window, n requires 0 <= n < e.window => ks[n] - i);
    forall n | 0 <= n < |rel|
      ensures 0 <= rel[n] < |part| && part[rel[n]] == trace[ks[n]]
    {
      assert ks[n] < j;
    }
    CountAtLeast(part, e.cmd, path, rel);
    RunSpacing(spec, trace, i, j, path, e);
  }

  // ------------------------------------------------------------ refresh

  /** The table makes `d` wait `val` cycles after each `c`, at level `l`. */
  ghost predicate HasEntry(spec: Spec, l: nat, c: nat, d: nat, val: int)
    requires spec.Valid() && l < NUM_LEVELS && c < spec.NumCmds()
  {
    exists e :: e in spec.cons[l][c] && e.cmd == d && !e.sibling && e.window == 1 && val <= e.val
  }

  /** While a refresh is pending, whatever its table entry holds back at a node it targets is not ready there. */
  lemma {:induction false} HeldBack(spec: Spec, log: seq<Event>, a: FutureAction, path: seq<nat>, d: nat,
                                    addr: seq<int>)
    requires spec.Valid() && ValidLog(spec, log) && LatenciesOk(spec) && a in Queue(spec, log)
    requires d < spec.NumCmds() && a.cmd < spec.NumCmds() && IsRefresh(spec, a.cmd)
    requires spec.ValidPath(path) && Matches(path, a.addr) && Matches(path, addr) && |path| - 1 <= spec.scopes[d]
    requires HasEntry(spec, |path| - 1, a.cmd, d, spec.future[a.cmd].latency)
    ensures !Ready(spec, Trace(log), d, addr, Clock(log))
  {
    var trace, clk := Trace(log), Clock(log);
    TraceFacts(spec, log);
    var i := QueuedIssue(spec, log, a);
    var e :| e in spec.cons[|path| - 1][a.cmd] && e.cmd == d && !e.sibling && e.window == 1
             && spec.future[a.cmd].latency <= e.val;
    if Ready(spec, trace, d, addr, clk) {
      assert Allows(spec.cons[|path| - 1], path, trace, d, clk);
      CountAtLeast(trace[i..], a.cmd, path, [0]);
      TargetSpacing(spec.cons[|path| - 1], path, trace, d, clk, i, e);
    }
  }

  /** Every refresh holds back `act` on the banks it covers, for as long as its completion takes. */
  ghost predicate HoldsBackActivate(spec: Spec, act: nat)
    requires spec.Valid() && RefreshWired(spec)
  {
    && act < spec.NumCmds() && spec.scopes[act] == ROW
    && forall c: nat :: c < spec.NumCmds() && IsRefresh(spec, c) ==>
         HasEntry(spec, if AllBank(spec, c) then RANK else BANK, c, act, spec.future[c].latency)
  }

  /** No activation is ready on a bank that a pending refresh covers. */
  lemma {:induction false} NoActivateWhilePending(spec: Spec, log: seq<Event>, act: nat, a: FutureAction,
                                                  path: seq<nat>, addr: seq<int>)
    requires spec.Valid() && ValidLog(spec, log) && LatenciesOk(spec) && RefreshWired(spec) &&
               HoldsBackActivate(spec, act)
    requires a in Queue(spec, log) && a.cmd < spec.NumCmds() && |a.addr| == |addr| == NUM_LEVELS
    requires spec.ValidPath(path) && |path| == BANK + 1 && Covers(spec, a.cmd, a.addr, path) && Matches(path, addr)
    ensures !Ready(spec, Trace(log), act, addr, Clock(log))
  {
    DueIsWired(spec, log, 0);
    if AllBank(spec, a.cmd) {
      HeldBack(spec, log, a, path[..RANK + 1], act, addr);
    } else {
      HeldBack(spec, log, a, path, act, addr);
    }
  }

  lemma {:induction false} CompleteEffect(spec: Spec, path: seq<nat>, done: seq<FutureAction>, s: BankState)
    requires spec.Valid() && RefreshWired(spec) && |path| == BANK + 1
    requires forall a :: a in done ==> |a.addr| == NUM_LEVELS && a.cmd < spec.NumCmds() && spec.future[a.cmd].Future?
    ensures (exists a :: a in done && Covers(spec, a.cmd, a.addr, path)) ==>
               Complete(spec, path, done, s).state == Closed
    ensures (forall a :: a in done ==> !Covers(spec, a.cmd, a.addr, path)) ==> Complete(spec, path, done, s) == s
  {
    if done != [] {
      var a := Last(done);
      assert forall x :: x in done <==> x in Init(done) || x == a;
      CompleteEffect(spec, path, Init(done), s);
      RefreshEnd(spec, path, a.cmd, a.addr, Complete(spec, path, Init(done), s));
    }
  }

  /** A refreshing bank always has a pending refresh that covers it. */
  lemma {:induction false} RefreshingHasPending(spec: Spec, path: seq<nat>, log: seq<Event>)
    requires spec.Valid() && ValidLog(spec, log) && RefreshWired(spec) && |path| == BANK + 1
    requires StateAfter(spec, path, log).state == Refreshing
    ensures exists a :: && a in Queue(spec, log) && a.cmd < spec.NumCmds() && |a.addr| == NUM_LEVELS
                        && Covers(spec, a.cmd, a.addr, path)
  {
    var s := StateAfter(spec, path, Init(log));
    var q := Queue(spec, Init(log));
    match Last(log)
    case Tick =>
      DueIsWired(spec, Init(log), Clock(log));
      CompleteEffect(spec, path, Due(q, Clock(log)), s);
      RefreshingHasPending(spec, path, Init(log));
      var a :| a in q && a.cmd < spec.NumCmds() && |a.addr| == NUM_LEVELS && Covers(spec, a.cmd, a.addr, path);
      KeepAndDueMembers(q, Clock(log));
      assert a in Queue(spec, log);
    case Cmd(cmd, addr) =>
      if IsRefresh(spec, cmd) {
        RefreshStart(spec, path, cmd, addr, s);
        if Covers(spec, cmd, addr, path) {
          assert Pushed(spec, cmd, addr, Clock(log))[0] in Queue(spec, log);
          return;
        }
      } else {
        OtherCommand(spec, path, cmd, addr, s);
      }
      RefreshingHasPending(spec, path, Init(log));
      var a :| a in q && a.cmd < spec.NumCmds() && |a.addr| == NUM_LEVELS && Covers(spec, a.cmd, a.addr, path);
      assert a in Queue(spec, log);
  }

  /** No activation is ever ready on a refreshing bank. */
  lemma {:induction false} NoActivateWhileRefreshing(spec: Spec, log: seq<Event>, act: nat, path: seq<nat>,
                                                     addr: seq<int>)
    requires spec.Valid() && ValidLog(spec, log) && LatenciesOk(spec) && RefreshWired(spec) &&
               HoldsBackActivate(spec, act)
    requires spec.ValidPath(path) && |path| == BANK + 1 && |addr| == NUM_LEVELS && Matches(path, addr)
    requires StateAfter(spec, path, log).state == Refreshing
    ensures !Ready(spec, Trace(log), act, addr, Clock(log))
  {
    RefreshingHasPending(spec, path, log);
    var a :| && a in Queue(spec, log) && a.cmd < spec.NumCmds() && |a.addr| == NUM_LEVELS
             && Covers(spec, a.cmd, a.addr, path);
    NoActivateWhilePending(spec, log, act, a, path, addr);
  }

  /** Any two refreshes that could share a bank keep their distance at the level where they meet. */
  ghost predicate HoldsBackRefresh(spec: Spec)
    requires spec.Valid() && RefreshWired(spec)
  {
    forall c: nat, d: nat :: c < spec.NumCmds() && d < spec.NumCmds() && IsRefresh(spec, c) && IsRefresh(spec, d) ==>
      HasEntry(spec, if AllBank(spec, c) || AllBank(spec, d) then RANK else BANK, c, d, spec.future[c].latency)
  }

  ghost predicate SharesNoBank(spec: Spec, a: FutureAction, b: FutureAction)
    requires spec.Valid()
  {
    && a.cmd < spec.NumCmds() && |a.addr| == NUM_LEVELS
    && b.cmd < spec.NumCmds() && |b.addr| == NUM_LEVELS
    && forall path :: spec.ValidPath(path) && |path| == BANK + 1 ==>
         !(Covers(spec, a.cmd, a.addr, path) && Covers(spec, b.cmd, b.addr, path))
  }

  ghost predicate Exclusive(spec: Spec, q: seq<FutureAction>)
    requires spec.Valid()
  {
    forall i, j :: 0 <= i < j < |q| ==> SharesNoBank(spec, q[i], q[j])
  }

  lemma {:induction false} KeepExclusive(spec: Spec, q: seq<FutureAction>, clk: int)
    requires spec.Valid() && Exclusive(spec, q)
    ensures Exclusive(spec, Keep(q, clk))
  {
    if q != [] {
      KeepExclusive(spec, q[1..], clk);
      KeepAndDueMembers(q[1..], clk);
      forall a | a in Keep(q[1..], clk)
        ensures SharesNoBank(spec, q[0], a)
      {
        var j :| 0 <= j < |q| - 1 && q[1..][j] == a;
        assert SharesNoBank(spec, q[0], q[j + 1]);
      }
    }
  }

  /** Refresh exclusivity: in a guarded run, no bank is ever covered by two pending refreshes. */
  lemma {:induction false} RefreshExclusive(spec: Spec, log: seq<Event>)
    requires spec.Valid() && ValidLog(spec, log) && LatenciesOk(spec) && RefreshWired(spec) && HoldsBackRefresh(spec)
    requires ValidTrace(spec, Trace(log)) && Guarded(spec, Trace(log))
    ensures Exclusive(spec, Queue(spec, log))
  {
    hide Ready, RefreshWired, HoldsBackRefresh, SharesNoBank, StateAfter;
    if log != [] {
      var before := Init(log);
      TraceFacts(spec, before);
      assert Trace(before) <= Trace(log);
      assert forall j :: 0 <= j < |Trace(before)| ==> Trace(before)[..j] == Trace(log)[..j];
      RefreshExclusive(spec, before);
      match Last(log)
      case Tick =>
        KeepExclusive(spec, Queue(spec, before), Clock(log));
      case Cmd(cmd, addr) =>
        if IsRefresh(spec, cmd) {
          assert Trace(log)[..|Trace(before)|] == Trace(before);
          assert Ready(spec, Trace(before), cmd, addr, Clock(before));
          forall a | a in Queue(spec, before)
            ensures SharesNoBank(spec, a, Pushed(spec, cmd, addr, Clock(log))[0])
          {
            NewRefreshApart(spec, before, a, cmd, addr);
          }
        }
    }
  }

  lemma {:induction false} NewRefreshApart(spec: Spec, log: seq<Event>, a: FutureAction, cmd: nat, addr: seq<int>)
    requires spec.Valid() && ValidLog(spec, log) && LatenciesOk(spec) && RefreshWired(spec) && HoldsBackRefresh(spec)
    requires a in Queue(spec, log) && cmd < spec.NumCmds() && IsRefresh(spec, cmd) && |addr| == NUM_LEVELS
    requires Ready(spec, Trace(log), cmd, addr, Clock(log))
    ensures forall clk :: SharesNoBank(spec, a, FutureAction(cmd, addr, clk))
  {
    DueIsWired(spec, log, 0);
    forall path | spec.ValidPath(path) && |path| == BANK + 1 && Covers(spec, a.cmd, a.addr, path) &&
               Covers(spec, cmd, addr, path)
      ensures false
    {
      if AllBank(spec, a.cmd) || AllBank(spec, cmd) {
        HeldBack(spec, log, a, path[..RANK + 1], cmd, addr);
      } else {
        HeldBack(spec, log, a, path, cmd, addr);
      }
    }
  }
}
