/**
 * Whole runs of a device (`tick` and `issue_command` of the DDR4 and DDR5 implementations), as
 * functions of the event log, and the safety properties every run has.
 */
module DramRun {
  import opened Wrappers
  import opened DramSpec
  import opened DramTiming
  import opened DramNode
  import opened DramRule

  datatype Event = Tick | Cmd(cmd: nat, addr: seq<int>)

  ghost predicate ValidLog(spec: Spec, log: seq<Event>) {
    forall i :: 0 <= i < |log| && log[i].Cmd? ==> log[i].cmd < spec.NumCmds() && spec.ValidAddr(log[i].addr)
  }

  function Clock(log: seq<Event>): nat {
    if log == [] then 0 else Clock(Init(log)) + if Last(log).Tick? then 1 else 0
  }

  function Trace(log: seq<Event>): seq<Issue> {
    if log == [] then []
    else
      match Last(log)
      case Tick => Trace(Init(log))
      case Cmd(cmd, addr) => Trace(Init(log)) + [Issue(cmd, addr, Clock(log))]
  }

  // ------------------------------------------------------------ the queue of future actions

  function Queue(spec: Spec, log: seq<Event>): seq<FutureAction> {
    if log == [] then []
    else
      match Last(log)
      case Tick => Keep(Queue(spec, Init(log)), Clock(log))
      case Cmd(cmd, addr) => Queue(spec, Init(log)) + Pushed(spec, cmd, addr, Clock(log))
  }

  /** Everything ever handled, with the clock at which it was handled. */
  function Handled(spec: Spec, log: seq<Event>): seq<(int, FutureAction)> {
    if log == [] then []
    else
      match Last(log)
      case Tick => Handled(spec, Init(log)) + Stamp(Clock(log), Due(Queue(spec, Init(log)), Clock(log)))
      case Cmd(_, _) => Handled(spec, Init(log))
  }

  function Stamp(clk: int, q: seq<FutureAction>): (r: seq<(int, FutureAction)>)
    ensures |r| == |q| && forall i :: 0 <= i < |r| ==> r[i] == (clk, q[i])
  {
    seq(|q|, i requires 0 <= i < |q| => (clk, q[i]))
  }

  /** The action each refresh-type command of the trace asks for. */
  function Requests(spec: Spec, trace: seq<Issue>): seq<FutureAction> {
    if trace == [] then []
    else
      Requests(spec, Init(trace)) + Pushed(spec, Last(trace).cmd, Last(trace).addr, Last(trace).clk)
  }

  /** The requests of the trace that have not come due since they were made. */
  function Outstanding(spec: Spec, trace: seq<Issue>, clk: int): seq<FutureAction> {
    if trace == [] then []
    else
      var iss := Last(trace);
      Outstanding(spec, Init(trace), clk) +
      Unelapsed(Pushed(spec, iss.cmd, iss.addr, iss.clk), iss.clk, clk)
  }

  function Unelapsed(q: seq<FutureAction>, issued: int, clk: int): seq<FutureAction>
    requires |q| <= 1
  {
    if q != [] && issued < q[0].clk <= clk then [] else q
  }

  lemma {:induction false} TraceFacts(spec: Spec, log: seq<Event>)
    ensures Chronological(Trace(log))
    ensures forall i :: 0 <= i < |Trace(log)| ==> Trace(log)[i].clk <= Clock(log)
    ensures ValidLog(spec, log) ==>
              forall i :: 0 <= i < |Trace(log)| ==>
                Trace(log)[i].cmd < spec.NumCmds() && spec.ValidAddr(Trace(log)[i].addr)
  {
    if log != [] {
      TraceFacts(spec, Init(log));
    }
  }

  lemma {:induction false} KeepConcat(a: seq<FutureAction>, b: seq<FutureAction>, clk: int)
    ensures Keep(a + b, clk) == Keep(a, clk) + Keep(b, clk)
  {
    if a == [] {
      assert a + b == b;
    } else {
      assert (a + b)[1..] == a[1..] + b;
      KeepConcat(a[1..], b, clk);
    }
  }

  lemma {:induction false} OutstandingTick(spec: Spec, trace: seq<Issue>, clk: int)
    requires forall i :: 0 <= i < |trace| ==> trace[i].clk < clk
    ensures Keep(Outstanding(spec, trace, clk - 1), clk) == Outstanding(spec, trace, clk)
  {
    if trace != [] {
      var iss := Last(trace);
      OutstandingTick(spec, Init(trace), clk);
      var tail := Unelapsed(Pushed(spec, iss.cmd, iss.addr, iss.clk), iss.clk, clk - 1);
      KeepConcat(Outstanding(spec, Init(trace), clk - 1), tail, clk);
      assert tail != [] ==> tail[1..] == [] && Keep(tail[1..], clk) == [];
    }
  }

  /** The queue is exactly the requests whose completion clock has not been reached since their issue. */
  lemma {:induction false} QueueIsOutstanding(spec: Spec, log: seq<Event>)
    ensures Queue(spec, log) == Outstanding(spec, Trace(log), Clock(log))
  {
    hide Chronological, ValidLog, Pushed, Keep;
    if log != [] {
      QueueIsOutstanding(spec, Init(log));
      TraceFacts(spec, Init(log));
      match Last(log)
      case Tick =>
        OutstandingTick(spec, Trace(log), Clock(log));
      case Cmd(cmd, addr) =>
        assert Init(Trace(log)) == Trace(Init(log));
    }
  }

  lemma {:induction false} KeepAndDue(q: seq<FutureAction>, clk: int)
    ensures multiset(q) == multiset(Keep(q, clk)) + multiset(Due(q, clk))
  {
    if q != [] {
      KeepAndDue(q[1..], clk);
      assert q == [q[0]] + q[1..];
    }
  }

  lemma {:induction false} KeepAndDueMembers(q: seq<FutureAction>, clk: int)
    ensures forall a :: a in Due(q, clk) <==> a in q && a.clk == clk
    ensures forall a :: a in Keep(q, clk) <==> a in q && a.clk != clk
  {
    if q != [] {
      KeepAndDueMembers(q[1..], clk);
      assert q == [q[0]] + q[1..];
    }
  }

  lemma {:induction false} DueStamped(q: seq<FutureAction>, clk: int)
    ensures forall x :: x in Stamp(clk, Due(q, clk)) ==> x.0 == x.1.clk
  {
    KeepAndDueMembers(q, clk);
  }

  function Actions(h: seq<(int, FutureAction)>): (r: seq<FutureAction>)
    ensures |r| == |h| && forall i :: 0 <= i < |r| ==> r[i] == h[i].1
  {
    seq(|h|, i requires 0 <= i < |h| => h[i].1)
  }

  /** Conservation: every requested completion is either still queued or has been handled exactly once. */
  lemma {:induction false} HandledOnce(spec: Spec, log: seq<Event>)
    ensures multiset(Requests(spec, Trace(log))) == multiset(Queue(spec, log)) + multiset(Actions(Handled(spec, log)))
  {
    if log != [] {
      HandledOnce(spec, Init(log));
      if Last(log).Tick? {
        var q, clk, h := Queue(spec, Init(log)), Clock(log), Handled(spec, Init(log));
        KeepAndDue(q, clk);
        MoveToHandled(Requests(spec, Trace(log)), q, Keep(q, clk), Due(q, clk), Actions(h));
        ActionsConcat(h, clk, Due(q, clk));
      } else {
        assert Init(Trace(log)) == Trace(Init(log));
        MoveToQueue(Requests(spec, Trace(Init(log))), Queue(spec, Init(log)), Actions(Handled(spec, log)),
                    Pushed(spec, Last(log).cmd, Last(log).addr, Clock(log)));
      }
    }
  }

  lemma {:induction false} ActionsConcat(h: seq<(int, FutureAction)>, clk: int, due: seq<FutureAction>)
    ensures Actions(h + Stamp(clk, due)) == Actions(h) + due
  {
  }

  lemma {:induction false} MoveToQueue(r: seq<FutureAction>, q: seq<FutureAction>, done: seq<FutureAction>,
                                       pushed: seq<FutureAction>)
    requires multiset(r) == multiset(q) + multiset(done)
    ensures multiset(r + pushed) == multiset(q + pushed) + multiset(done)
  {
  }

  /** A completion is handled exactly when the clock reaches it. */
  lemma {:induction false} HandledOnTime(spec: Spec, log: seq<Event>)
    ensures forall h :: h in Handled(spec, log) ==> h.0 == h.1.clk
  {
    if log != [] {
      HandledOnTime(spec, Init(log));
      if Last(log).Tick? {
        DueStamped(Queue(spec, Init(log)), Clock(log));
      }
    }
  }

  lemma {:induction false} MoveToHandled(r: seq<FutureAction>, q: seq<FutureAction>, keep: seq<FutureAction>,
                      due: seq<FutureAction>, done: seq<FutureAction>)
    requires multiset(r) == multiset(q) + multiset(done)
    requires multiset(q) == multiset(keep) + multiset(due)
    ensures multiset(r) == multiset(keep) + multiset(done + due)
  {
  }

  /** Latencies of at least two cycles, which the completion queue needs: see `QueueInFutureIff`. */
  ghost predicate LatenciesOk(spec: Spec) {
    forall c :: 0 <= c < |spec.future| && spec.future[c].Future? ==> spec.future[c].latency >= 2
  }

  lemma {:induction false} OutstandingMembers(spec: Spec, trace: seq<Issue>, clk: int, a: FutureAction)
    ensures a in Outstanding(spec, trace, clk) <==>
              exists i :: && 0 <= i < |trace|
                          && a in Pushed(spec, trace[i].cmd, trace[i].addr, trace[i].clk)
                          && !(trace[i].clk < a.clk <= clk)
  {
    if trace != [] {
      OutstandingMembers(spec, Init(trace), clk, a);
      assert forall i :: 0 <= i < |trace| - 1 ==> Init(trace)[i] == trace[i];
    }
  }

  /** Where a queued action comes from. */
  lemma {:induction false} QueuedIssue(spec: Spec, log: seq<Event>, a: FutureAction) returns (i: nat)
    requires a in Queue(spec, log)
    ensures i < |Trace(log)|
    ensures a in Pushed(spec, Trace(log)[i].cmd, Trace(log)[i].addr, Trace(log)[i].clk)
    ensures !(Trace(log)[i].clk < a.clk <= Clock(log))
  {
    QueueIsOutstanding(spec, log);
    OutstandingMembers(spec, Trace(log), Clock(log), a);
    i :| && 0 <= i < |Trace(log)|
         && a in Pushed(spec, Trace(log)[i].cmd, Trace(log)[i].addr, Trace(log)[i].clk)
         && !(Trace(log)[i].clk < a.clk <= Clock(log));
  }

  /**
   * Every queued completion lies strictly in the future if and only if no issued refresh has a
   * latency below two: `tick` increments the clock before it compares for equality, so a completion
   * at or before its own issue clock is never handled.
   */
  lemma {:induction false} QueueInFutureIff(spec: Spec, log: seq<Event>)
    ensures (forall a :: a in Queue(spec, log) ==> Clock(log) < a.clk) <==>
            (forall i :: 0 <= i < |Trace(log)| ==> !TooShort(spec, Trace(log)[i].cmd))
  {
    forall i | 0 <= i < |Trace(log)| && TooShort(spec, Trace(log)[i].cmd)
      ensures exists a :: a in Queue(spec, log) && a.clk <= Clock(log)
    {
      var a := NeverHandled(spec, log, i);
    }
    forall a | a in Queue(spec, log) && a.clk <= Clock(log)
      ensures exists i :: 0 <= i < |Trace(log)| && TooShort(spec, Trace(log)[i].cmd)
    {
      var i := QueuedIssue(spec, log, a);
    }
  }

  lemma {:induction false} QueueInFuture(spec: Spec, log: seq<Event>, a: FutureAction)
    requires LatenciesOk(spec) && a in Queue(spec, log)
    ensures Clock(log) < a.clk
  {
    QueueInFutureIff(spec, log);
  }

  predicate TooShort(spec: Spec, cmd: nat) {
    IsRefresh(spec, cmd) && spec.future[cmd].latency < 2
  }

  lemma {:induction false} NeverHandled(spec: Spec, log: seq<Event>, i: nat) returns (a: FutureAction)
    requires i < |Trace(log)| && TooShort(spec, Trace(log)[i].cmd)
    ensures a in Queue(spec, log) && a.clk <= Clock(log)
  {
    hide Trace, Clock, Queue, Outstanding;
    TraceFacts(spec, log);
    QueueIsOutstanding(spec, log);
    var iss := Trace(log)[i];
    a := FutureAction(iss.cmd, iss.addr, iss.clk + spec.future[iss.cmd].latency - 1);
    assert a in Pushed(spec, iss.cmd, iss.addr, iss.clk);
    OutstandingMembers(spec, Trace(log), Clock(log), a);
  }

  // ------------------------------------------------------------ bank states

  /** The state of the node at `path` after the whole log. */
  function StateAfter(spec: Spec, path: seq<nat>, log: seq<Event>): BankState {
    if log == [] then InitState(|path| - 1)
    else
      var s := StateAfter(spec, path, Init(log));
      match Last(log)
      case Tick => Complete(spec, path, Due(Queue(spec, Init(log)), Clock(log)), s)
      case Cmd(cmd, addr) => StepState(spec, CHANNEL, path, cmd, addr, s)
  }

  /** Queued actions name valid addresses and commands with a completion. */
  lemma {:induction false} DueIsWired(spec: Spec, log: seq<Event>, clk: int)
    requires spec.Valid() && ValidLog(spec, log)
    ensures forall a :: a in Queue(spec, log) ==>
              spec.ValidAddr(a.addr) && IsRefresh(spec, a.cmd) && a.cmd < spec.NumCmds()
    ensures forall a :: a in Due(Queue(spec, log), clk) ==> a in Queue(spec, log) && a.clk == clk
  {
    TraceFacts(spec, log);
    KeepAndDueMembers(Queue(spec, log), clk);
    forall a | a in Queue(spec, log)
      ensures spec.ValidAddr(a.addr) && IsRefresh(spec, a.cmd) && a.cmd < spec.NumCmds()
    {
      var i := QueuedIssue(spec, log, a);
    }
  }

  /** The three actions a command may have, at rank, bank group and bank. */
  predicate Wires(spec: Spec, cmd: nat, rank: GroupAction, bg: GroupAction, bank: BankAction)
    requires cmd < |spec.rankActions| == |spec.bankGroupActions| == |spec.bankActions|
  {
    spec.rankActions[cmd] == rank && spec.bankGroupActions[cmd] == bg && spec.bankActions[cmd] == bank
  }

  predicate AllBank(spec: Spec, cmd: nat)
    requires spec.Valid() && cmd < spec.NumCmds()
  {
    && Wires(spec, cmd, RefreshBanks, NoGroupAction, NoBankAction) && spec.scopes[cmd] == RANK
    && spec.future[cmd].Future?
    && Wires(spec, spec.future[cmd].endCmd, EndRefreshBanks, NoGroupAction, NoBankAction)
    && spec.scopes[spec.future[cmd].endCmd] == RANK
  }

  predicate SameBank(spec: Spec, cmd: nat)
    requires spec.Valid() && cmd < spec.NumCmds()
  {
    && Wires(spec, cmd, NoGroupAction, RefreshBanks, NoBankAction) && spec.scopes[cmd] == BANK
    && spec.future[cmd].Future?
    && Wires(spec, spec.future[cmd].endCmd, NoGroupAction, EndRefreshBanks, NoBankAction)
    && spec.scopes[spec.future[cmd].endCmd] == BANK
  }

  /** Refresh commands are wired as all-bank or same-bank refreshes, and nothing else starts a refresh. */
  ghost predicate RefreshWired(spec: Spec)
    requires spec.Valid()
  {
    forall c: nat :: c < spec.NumCmds() ==>
      if IsRefresh(spec, c) then AllBank(spec, c) || SameBank(spec, c)
      else spec.rankActions[c] != RefreshBanks && spec.bankGroupActions[c] != RefreshBanks
  }

  /** The banks a refresh command puts in refresh. */
  predicate Covers(spec: Spec, cmd: nat, addr: seq<int>, path: seq<nat>)
    requires cmd < |spec.rankActions| && |path| == BANK + 1 && |addr| == NUM_LEVELS
  {
    if spec.rankActions[cmd] == RefreshBanks then Agrees(path, RANK + 1, addr)
    else Matches(path, addr) && addr[BANK] == path[BANK]
  }

  /** A refresh command moves exactly the banks it covers to Refreshing. */
  lemma {:induction false} RefreshStart(spec: Spec, path: seq<nat>, c: nat, addr: seq<int>, s: BankState)
    requires spec.Valid() && RefreshWired(spec) && c < spec.NumCmds() && IsRefresh(spec, c)
    requires |path| == BANK + 1 && |addr| == NUM_LEVELS
    ensures StepState(spec, CHANNEL, path, c, addr, s) ==
              if Covers(spec, c, addr, path) then s.(state := Refreshing) else s
  {
    Unroll(spec, path, c, addr, s);
    if AllBank(spec, c) {
    } else {
      assert SameBank(spec, c);
    }
  }

  /**
   * Its completion closes exactly the banks it covers. A same-bank completion also forgets their open
   * rows; an all-bank one leaves the row records as they were.
   */
  lemma {:induction false} RefreshEnd(spec: Spec, path: seq<nat>, c: nat, addr: seq<int>, s: BankState)
    requires spec.Valid() && RefreshWired(spec) && c < spec.NumCmds() && IsRefresh(spec, c)
    requires |path| == BANK + 1 && |addr| == NUM_LEVELS
    ensures var s' := StepState(spec, CHANNEL, path, spec.future[c].endCmd, addr, s);
            s' == if !Covers(spec, c, addr, path) then s
                  else BankState(Closed, if AllBank(spec, c) then s.rows else {})
  {
    Unroll(spec, path, spec.future[c].endCmd, addr, s);
    if AllBank(spec, c) {
    } else {
      assert SameBank(spec, c);
    }
  }

  /** Any other command never moves a bank to Refreshing. */
  lemma {:induction false} OtherCommand(spec: Spec, path: seq<nat>, c: nat, addr: seq<int>, s: BankState)
    requires spec.Valid() && RefreshWired(spec) && c < spec.NumCmds() && !IsRefresh(spec, c)
    requires |path| == BANK + 1 && |addr| == NUM_LEVELS
    requires StepState(spec, CHANNEL, path, c, addr, s).state == Refreshing
    ensures s.state == Refreshing
  {
    Unroll(spec, path, c, addr, s);
  }

  /** The action chain written out: channel, rank, bank group, bank. */
  lemma {:induction false} Unroll(spec: Spec, path: seq<nat>, c: nat, addr: seq<int>, s: BankState)
    requires spec.Valid() && c < spec.NumCmds()
    requires |path| == BANK + 1 && |addr| == NUM_LEVELS
    ensures StepState(spec, CHANNEL, path, c, addr, s) ==
            var scope := spec.scopes[c];
            var s1 := if scope != CHANNEL && Agrees(path, RANK + 1, addr)
                      then LevelAction(spec, RANK, path, c, addr, s) else s;
            var s2 := if scope > RANK && Agrees(path, BANKGROUP + 1, addr)
                      then LevelAction(spec, BANKGROUP, path, c, addr, s1) else s1;
            if scope > BANKGROUP && Matches(path, addr) then LevelAction(spec, BANK, path, c, addr, s2) else s2
  {
    if spec.scopes[c] != CHANNEL && Agrees(path, RANK + 1, addr) {
      var s1 := LevelAction(spec, RANK, path, c, addr, s);
      if spec.scopes[c] != RANK && Agrees(path, BANKGROUP + 1, addr) {
        var s2 := LevelAction(spec, BANKGROUP, path, c, addr, s1);
        if spec.scopes[c] != BANKGROUP && Matches(path, addr) {
          var s3 := LevelAction(spec, BANK, path, c, addr, s2);
          assert StepState(spec, ROW, path, c, addr, s3) == s3;
          assert StepState(spec, BANK, path, c, addr, s2) == s3;
        }
        assert StepState(spec, BANKGROUP, path, c, addr, s1) ==
               if spec.scopes[c] == BANKGROUP then s2 else StepState(spec, BANK, path, c, addr, s2);
      }
      assert StepState(spec, RANK, path, c, addr, s) ==
             if spec.scopes[c] == RANK then s1 else StepState(spec, BANKGROUP, path, c, addr, s1);
    }
  }
}
