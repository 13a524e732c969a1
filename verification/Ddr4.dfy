/** The DDR4 device (dram/impl/DDR4.cpp): its commands, constraint table, actions and refresh. */
module Ddr4 {
  import opened Wrappers
  import opened DramSpec
  import opened DramTiming
  import opened DramNode
  import opened DramRule
  import opened DramRun
  import opened DramSafety
  import opened DramSpacing
  import opened DramBanks

  const ACT: nat := 0
  const PRE: nat := 1
  const PREA: nat := 2
  const RD: nat := 3
  const WR: nat := 4
  const RDA: nat := 5
  const WRA: nat := 6
  const REFAB: nat := 7
  const REFAB_END: nat := 8
  const NUM_CMDS: nat := 9

  datatype Timings = Timings(
    nBL: int, nCL: int, nRCD: int, nRP: int, nRAS: int, nRC: int, nWR: int, nRTP: int, nCWL: int,
    nCCDS: int, nCCDL: int, nRRDS: int, nRRDL: int, nWTRS: int, nWTRL: int, nFAW: int, nRFC: int, nCS: int)

  function Initializer(t: Timings): seq<TimingConsInitializer> {
    ChannelRows(t) + CasRows(t) + SwitchRows(t) + RasRows(t) + [FourActivates(ACT, t.nFAW)] + GroupRows(t) +
    BankRows(t)
  }

  /** Data bus occupancy. */
  function ChannelRows(t: Timings): seq<TimingConsInitializer> {
    [
      Cons(CHANNEL, [RD, RDA], [RD, RDA], t.nBL),
      Cons(CHANNEL, [WR, WRA], [WR, WRA], t.nBL)
    ]
  }

  /** Column commands of one rank, whatever the bank groups. */
  function CasRows(t: Timings): seq<TimingConsInitializer> {
    [
      Cons(RANK, [RD, RDA], [RD, RDA], t.nCCDS),
      Cons(RANK, [WR, WRA], [WR, WRA], t.nCCDS),
      Cons(RANK, [RD, RDA], [WR, WRA], t.nCL + t.nBL + 2 - t.nCWL),
      Cons(RANK, [WR, WRA], [RD, RDA], t.nCWL + t.nBL + t.nWTRS),
      Cons(RANK, [RD], [PREA], t.nRTP),
      Cons(RANK, [WR], [PREA], t.nCWL + t.nBL + t.nWR)
    ]
  }

  /** CAS <-> CAS between sibling ranks. */
  function SwitchRows(t: Timings): seq<TimingConsInitializer> {
    [
      SiblingCons(RANK, [RD, RDA], [RD, RDA, WR, WRA], t.nBL + t.nCS),
      SiblingCons(RANK, [WR, WRA], [RD, RDA], t.nCL + t.nBL + t.nCS - t.nCWL)
    ]
  }

  /** Activations, precharges and refreshes of one rank. */
  function RasRows(t: Timings): seq<TimingConsInitializer> {
    [
      Cons(RANK, [ACT], [ACT], t.nRRDS),
      Cons(RANK, [ACT], [PREA], t.nRAS),
      Cons(RANK, [PREA], [ACT], t.nRP),
      Cons(RANK, [ACT], [REFAB], t.nRC),
      Cons(RANK, [PRE, PREA], [REFAB], t.nRP),
      Cons(RANK, [RDA], [REFAB], t.nRP + t.nRTP),
      Cons(RANK, [WRA], [REFAB], t.nCWL + t.nBL + t.nWR + t.nRP),
      RefreshToActivate(t)
    ]
  }

  function GroupRows(t: Timings): seq<TimingConsInitializer> {
    [
      Cons(BANKGROUP, [RD, RDA], [RD, RDA], t.nCCDL),
      Cons(BANKGROUP, [WR, WRA], [WR, WRA], t.nCCDL),
      Cons(BANKGROUP, [WR, WRA], [RD, RDA], t.nCWL + t.nBL + t.nWTRL),
      Cons(BANKGROUP, [ACT], [ACT], t.nRRDL)
    ]
  }

  function BankRows(t: Timings): seq<TimingConsInitializer> {
    [
      Cons(BANK, [ACT], [ACT], t.nRC),
      Cons(BANK, [ACT], [RD, RDA, WR, WRA], t.nRCD),
      Cons(BANK, [ACT], [PRE], t.nRAS),
      Cons(BANK, [PRE], [ACT], t.nRP),
      Cons(BANK, [RD], [PRE], t.nRTP),
      Cons(BANK, [WR], [PRE], t.nCWL + t.nBL + t.nWR),
      Cons(BANK, [RDA], [ACT], t.nRTP + t.nRP),
      Cons(BANK, [WRA], [ACT], t.nCWL + t.nBL + t.nWR + t.nRP)
    ]
  }

  function RefreshToActivate(t: Timings): TimingConsInitializer {
    Cons(RANK, [REFAB], [ACT, PREA], t.nRFC)
  }

  const SCOPES: seq<nat> := [ROW, BANK, RANK, COLUMN, COLUMN, COLUMN, COLUMN, RANK, RANK]

  const RANK_ACTIONS: seq<GroupAction> := [
    NoGroupAction, NoGroupAction, CloseBanks, NoGroupAction, NoGroupAction, NoGroupAction, NoGroupAction,
    RefreshBanks, EndRefreshBanks]

  const BANK_ACTIONS: seq<BankAction> := [
    Activate, Precharge, NoBankAction, NoBankAction, NoBankAction, Precharge, Precharge, NoBankAction, NoBankAction]

  function FutureRules(t: Timings): seq<FutureRule> {
    [NoFuture, NoFuture, NoFuture, NoFuture, NoFuture, NoFuture, NoFuture, Future(t.nRFC, REFAB_END), NoFuture]
  }

  /** Scopes, actions and completions. */
  ghost predicate IsWired(spec: Spec, t: Timings) {
    && |spec.counts| == NUM_LEVELS
    && spec.scopes == SCOPES
    && spec.rankActions == RANK_ACTIONS
    && spec.bankGroupActions == seq(NUM_CMDS, _ => NoGroupAction)
    && spec.bankActions == BANK_ACTIONS
    && spec.future == FutureRules(t)
    && WellFormed(spec.cons, NUM_CMDS)
  }

  ghost predicate IsDdr4(spec: Spec, t: Timings) {
    IsWired(spec, t) && Populates(spec.cons, NUM_CMDS, Initializer(t))
  }

  /** The device description, with its constraint table populated from the initializer list. */
  method CreateSpec(counts: seq<nat>, t: Timings) returns (spec: Spec)
    requires |counts| == NUM_LEVELS
    ensures IsDdr4(spec, t) && spec.Valid() && spec.counts == counts
  {
    InitializerValid(t);
    var cons := PopulateTimingCons(NUM_CMDS, Initializer(t));
    spec := Spec(counts, cons, SCOPES, RANK_ACTIONS, seq(NUM_CMDS, _ => NoGroupAction), BANK_ACTIONS, FutureRules(t));
  }

  lemma {:induction false} InitializerValid(t: Timings)
    ensures forall k :: 0 <= k < |Initializer(t)| ==>
              ValidInitializer(Initializer(t)[k], NUM_CMDS) && Initializer(t)[k].window >= 1
  {
  }

  /** An initializer's entry is in the table. */
  lemma {:induction false} EntryFor(spec: Spec, t: Timings, ts: TimingConsInitializer, p: nat, f: nat)
    requires IsDdr4(spec, t) && ts in Initializer(t) && ts.level < NUM_LEVELS
    requires p < NUM_CMDS && p in ts.preceding && f in ts.following
    ensures TimingConsEntry(f, ts.latency, ClampWindow(ts.window), ts.isSibling) in spec.cons[ts.level][p]
  {
    assert Generates(ts, ts.level, p, TimingConsEntry(f, ts.latency, ClampWindow(ts.window), ts.isSibling));
  }

  /** Four-activate window: in a guarded run, any five activations of one rank span at least nFAW cycles. */
  lemma {:induction false} FourActivateWindow(spec: Spec, t: Timings, trace: seq<Issue>, rank: seq<nat>, ks: seq<nat>)
    requires IsDdr4(spec, t) && spec.Valid() && ValidTrace(spec, trace) && Guarded(spec, trace)
    requires spec.ValidPath(rank) && |rank| == RANK + 1
    requires |ks| == 5 && forall m, n :: 0 <= m < n < 5 ==> ks[m] < ks[n]
    requires forall n :: 0 <= n < 5 ==> ks[n] < |trace| && trace[ks[n]].cmd == ACT && Matches(rank, trace[ks[n]].addr)
    ensures trace[ks[0]].clk + t.nFAW <= trace[ks[4]].clk
  {
    EntryFor(spec, t, FourActivates(ACT, t.nFAW), ACT, ACT);
    WindowSpan(spec, trace, ks, rank, TimingConsEntry(ACT, t.nFAW, 4, false));
  }

  lemma {:induction false} RefreshWiring(spec: Spec, t: Timings)
    requires IsWired(spec, t) && spec.Valid()
    ensures RefreshWired(spec) && spec.scopes[ACT] == ROW
    ensures forall c: nat :: IsRefresh(spec, c) <==> c == REFAB
    ensures AllBank(spec, REFAB) && spec.future[REFAB].latency == t.nRFC
  {
  }

  // ------------------------------------------------------------ banks

  /** What each command does to a bank. */
  function Effect(c: nat, addr: seq<int>, bank: seq<nat>, s: BankState): BankState
    requires |addr| == NUM_LEVELS
  {
    if c == ACT && AtBank(addr, bank) then BankState(Opened, s.rows + {addr[ROW]})
    else if c in {PRE, RDA, WRA} && AtBank(addr, bank) then BankState(Closed, {})
    else if c == PREA && AtRank(addr, bank) then BankState(Closed, {})
    else if c == REFAB && AtRank(addr, bank) then s.(state := Refreshing)
    else if c == REFAB_END && AtRank(addr, bank) then s.(state := Closed)
    else s
  }

  /** The actions wired into the tree have that effect. */
  lemma {:induction false} CommandEffect(spec: Spec, t: Timings, bank: seq<nat>, c: nat, addr: seq<int>, s: BankState)
    requires IsWired(spec, t) && spec.Valid() && c < NUM_CMDS && spec.ValidAddr(addr) && |bank| == BANK + 1
    ensures StepState(spec, CHANNEL, bank, c, addr, s) == Effect(c, addr, bank, s)
  {
    hide StepState, Agrees;
    Unroll(spec, bank, c, addr, s);
    AddressedAt(spec, addr, bank);
  }

  /** After any run, a command leaves exactly the banks it reaches opened, closed or in refresh. */
  lemma {:induction false} AfterCommand(spec: Spec, t: Timings, bank: seq<nat>, log: seq<Event>, c: nat, addr: seq<int>)
    requires IsWired(spec, t) && spec.Valid() && c < NUM_CMDS && spec.ValidAddr(addr) && |bank| == BANK + 1
    ensures StateAfter(spec, bank, log + [Cmd(c, addr)]) == Effect(c, addr, bank, StateAfter(spec, bank, log))
  {
    assert Init(log + [Cmd(c, addr)]) == log;
    CommandEffect(spec, t, bank, c, addr, StateAfter(spec, bank, log));
  }

  const ROLES: Roles := Roles(REFAB, ACT, {PRE, RDA, WRA}, {}, {PREA})

  /**
   * In runs without refresh, a bank is open exactly when some ACT of it has been followed by no PRE,
   * RDA or WRA of the bank and no PREA of its rank, and its open rows are the rows of those ACTs.
   */
  lemma {:induction false} OpenRowsOf(spec: Spec, t: Timings, bank: seq<nat>, log: seq<Event>)
    requires IsWired(spec, t) && spec.Valid() && ValidLog(spec, log) && |bank| == BANK + 1
    requires forall i :: 0 <= i < |log| && log[i].Cmd? ==> log[i].cmd !in {REFAB, REFAB_END}
    ensures StateAfter(spec, bank, log).state == Opened || StateAfter(spec, bank, log).state == Closed
    ensures StateAfter(spec, bank, log).state == Opened <==> exists i :: Standing(ROLES, bank, log, i)
    ensures forall row :: row in StateAfter(spec, bank, log).rows <==>
              exists i :: Standing(ROLES, bank, log, i) && log[i].addr[ROW] == row
  {
    hide StateAfter, StepState;
    forall c: nat, addr, s | c < REFAB && spec.ValidAddr(addr)
      ensures StepState(spec, CHANNEL, bank, c, addr, s) == Effect(c, addr, bank, s)
    {
      CommandEffect(spec, t, bank, c, addr, s);
    }
    RefreshWiring(spec, t);
    assert Plays(spec, ROLES, bank);
    OpenRows(spec, ROLES, bank, log);
  }

  lemma {:induction false} RefreshFacts(spec: Spec, t: Timings)
    requires IsDdr4(spec, t) && spec.Valid() && t.nRFC >= 2
    ensures LatenciesOk(spec) && RefreshWired(spec) && HoldsBackActivate(spec, ACT)
  {
    RefreshWiring(spec, t);
    EntryFor(spec, t, RefreshToActivate(t), REFAB, ACT);
    assert HasEntry(spec, RANK, REFAB, ACT, t.nRFC);
  }

  /**
   * Refresh safety: in every run, guarded or not, a refreshing bank has a pending completion that
   * covers it and lies strictly in the future, and no activation is ready there.
   */
  lemma {:induction false} RefreshSafety(spec: Spec, t: Timings, log: seq<Event>, bank: seq<nat>, addr: seq<int>)
    requires IsDdr4(spec, t) && spec.Valid() && ValidLog(spec, log) && t.nRFC >= 2
    requires spec.ValidPath(bank) && |bank| == BANK + 1 && |addr| == NUM_LEVELS && Matches(bank, addr)
    requires StateAfter(spec, bank, log).state == Refreshing
    ensures exists a :: && a in Queue(spec, log) && a.cmd == REFAB && |a.addr| == NUM_LEVELS
                        && Agrees(bank, RANK + 1, a.addr) && Clock(log) < a.clk
    ensures !Ready(spec, Trace(log), ACT, addr, Clock(log))
  {
    RefreshWiring(spec, t);
    RefreshFacts(spec, t);
    RefreshingHasPending(spec, bank, log);
    var a :| && a in Queue(spec, log) && a.cmd < spec.NumCmds() && |a.addr| == NUM_LEVELS
             && Covers(spec, a.cmd, a.addr, bank);
    DueIsWired(spec, log, 0);
    QueueInFuture(spec, log, a);
    NoActivateWhileRefreshing(spec, log, ACT, bank, addr);
  }

  /**
   * DDR4's table has no entry from REFab to REFab, so refreshes are not exclusive: two of them issued
   * in the same cycle both pass `check_ready` and are pending on the same banks.
   */
  lemma {:induction false} RefreshNotExclusive(spec: Spec, t: Timings, bank: seq<nat>, addr: seq<int>)
    requires IsDdr4(spec, t) && spec.Valid() && t.nRFC >= 2
    requires spec.ValidAddr(addr) && spec.ValidPath(bank) && |bank| == BANK + 1 && Agrees(bank, RANK + 1, addr)
    ensures var log := [Cmd(REFAB, addr), Cmd(REFAB, addr)];
            && ValidLog(spec, log) && ValidTrace(spec, Trace(log)) && Guarded(spec, Trace(log))
            && !Exclusive(spec, Queue(spec, log))
  {
    hide SharesNoBank, Ready, Guarded, Exclusive;
    DoubleRefresh(spec, t, addr);
    DoubleRefreshGuarded(spec, t, addr);
    DoubleRefreshShares(spec, t, bank, addr);
  }

  /** Two refreshes address the same rank of the same channel; -1 stands for every rank. */
  predicate Overlap(a: seq<int>, b: seq<int>) {
    && |a| == |b| == NUM_LEVELS && a[CHANNEL] == b[CHANNEL]
    && (a[RANK] == b[RANK] || a[RANK] == -1 || b[RANK] == -1)
  }

  /** Refreshes share a bank exactly when they overlap on channel and rank. */
  lemma {:induction false} OverlapShares(spec: Spec, t: Timings, a: FutureAction, b: FutureAction)
    requires IsWired(spec, t) && spec.Valid() && HasBanks(spec)
    requires a.cmd == b.cmd == REFAB && spec.ValidAddr(a.addr) && spec.ValidAddr(b.addr)
    ensures SharesNoBank(spec, a, b) <==> !Overlap(a.addr, b.addr)
  {
    if Overlap(a.addr, b.addr) {
      var rank := if a.addr[RANK] != -1 then a.addr[RANK] else if b.addr[RANK] != -1 then b.addr[RANK] else 0;
      var path: seq<nat> := [a.addr[CHANNEL], rank, 0, 0];
      assert spec.ValidPath(path) && Covers(spec, REFAB, a.addr, path) && Covers(spec, REFAB, b.addr, path);
    }
  }

  /** An earlier REFab of the trace that overlaps `addr` and was issued less than nRFC - 1 cycles ago. */
  predicate TooClose(t: Timings, iss: Issue, addr: seq<int>, clk: int) {
    iss.cmd == REFAB && Overlap(iss.addr, addr) && clk < iss.clk + t.nRFC - 1
  }

  /** A further REFab keeps pending refreshes exclusive exactly when no earlier one is too close. */
  lemma {:induction false} ExclusiveIffSpaced(spec: Spec, t: Timings, log: seq<Event>, addr: seq<int>)
    requires IsWired(spec, t) && spec.Valid() && HasBanks(spec) && ValidLog(spec, log) && t.nRFC >= 2
    requires Exclusive(spec, Queue(spec, log)) && spec.ValidAddr(addr)
    ensures Exclusive(spec, Queue(spec, log) + Pushed(spec, REFAB, addr, Clock(log))) <==>
            forall i :: 0 <= i < |Trace(log)| ==> !TooClose(t, Trace(log)[i], addr, Clock(log))
  {
    hide SharesNoBank, IsWired, Overlap;
    var q, a := Queue(spec, log), FutureAction(REFAB, addr, Clock(log) + t.nRFC - 1);
    PushedRefresh(spec, t, addr, Clock(log));
    TraceFacts(spec, log);
    ExclusivePush(spec, q, a);
    forall b | b in q && !SharesNoBank(spec, b, a)
      ensures exists i :: 0 <= i < |Trace(log)| && TooClose(t, Trace(log)[i], addr, Clock(log))
    {
      var i := PendingIsRecent(spec, t, log, b);
      OverlapShares(spec, t, b, a);
      assert TooClose(t, Trace(log)[i], addr, Clock(log));
    }
    forall i | 0 <= i < |Trace(log)| && TooClose(t, Trace(log)[i], addr, Clock(log))
      ensures exists b :: b in q && !SharesNoBank(spec, b, a)
    {
      var b := RecentIsPending(spec, t, log, i);
      OverlapShares(spec, t, b, a);
    }
  }

  lemma {:induction false} PushedRefresh(spec: Spec, t: Timings, addr: seq<int>, clk: int)
    requires IsWired(spec, t)
    ensures Pushed(spec, REFAB, addr, clk) == [FutureAction(REFAB, addr, clk + t.nRFC - 1)]
  {
  }

  /** Pending refreshes are exclusive at every point of the run. */
  ghost predicate AlwaysExclusive(spec: Spec, log: seq<Event>)
    requires spec.Valid()
  {
    Exclusive(spec, Queue(spec, log)) && (log != [] ==> AlwaysExclusive(spec, Init(log)))
  }

  /** Any two overlapping REFab of the trace are at least nRFC - 1 cycles apart. */
  predicate Spaced(t: Timings, trace: seq<Issue>) {
    forall i, j :: 0 <= i < j < |trace| && trace[j].cmd == REFAB ==> !TooClose(t, trace[i], trace[j].addr, trace[j].clk)
  }

  /**
   * On whole runs, guarded or not: pending refreshes are exclusive throughout exactly when overlapping
   * REFab are at least nRFC - 1 cycles apart. The table alone does not ensure this.
   */
  lemma {:induction false} AlwaysExclusiveIff(spec: Spec, t: Timings, log: seq<Event>)
    requires IsWired(spec, t) && spec.Valid() && HasBanks(spec) && ValidLog(spec, log) && t.nRFC >= 2
    ensures AlwaysExclusive(spec, log) <==> Spaced(t, Trace(log))
  {
    hide SharesNoBank, IsWired, TooClose, ValidLog;
    if log != [] {
      var before, e := Init(log), Last(log);
      ValidBefore(spec, log);
      AlwaysExclusiveIff(spec, t, before);
      match e
      case Tick =>
        if AlwaysExclusive(spec, before) {
          KeepExclusive(spec, Queue(spec, before), Clock(log));
        }
      case Cmd(cmd, addr) =>
        SpacedStep(t, Trace(before), Issue(cmd, addr, Clock(log)));
        if cmd != REFAB {
          NothingPushed(spec, t, cmd, addr, Clock(log));
          assert Queue(spec, log) == Queue(spec, before);
        } else if AlwaysExclusive(spec, before) {
          ExclusiveIffSpaced(spec, t, before, addr);
        }
    }
  }

  lemma {:induction false} ValidBefore(spec: Spec, log: seq<Event>)
    requires log != [] && ValidLog(spec, log)
    ensures ValidLog(spec, Init(log)) && (Last(log).Cmd? ==> spec.ValidAddr(Last(log).addr))
  {
  }

  lemma {:induction false} NothingPushed(spec: Spec, t: Timings, cmd: nat, addr: seq<int>, clk: int)
    requires IsWired(spec, t) && spec.Valid() && cmd != REFAB
    ensures Pushed(spec, cmd, addr, clk) == []
  {
    RefreshWiring(spec, t);
    assert !IsRefresh(spec, cmd);
  }

  lemma {:induction false} SpacedStep(t: Timings, trace: seq<Issue>, iss: Issue)
    ensures Spaced(t, trace + [iss]) <==>
            Spaced(t, trace) &&
            (iss.cmd == REFAB ==> forall i :: 0 <= i < |trace| ==> !TooClose(t, trace[i], iss.addr, iss.clk))
  {
    hide TooClose;
    var longer := trace + [iss];
    if Spaced(t, longer) {
      forall i, j | 0 <= i < j < |trace| && trace[j].cmd == REFAB
        ensures !TooClose(t, trace[i], trace[j].addr, trace[j].clk)
      {
        assert !TooClose(t, longer[i], longer[j].addr, longer[j].clk);
      }
      forall i | 0 <= i < |trace| && iss.cmd == REFAB
        ensures !TooClose(t, trace[i], iss.addr, iss.clk)
      {
        assert !TooClose(t, longer[i], longer[|trace|].addr, longer[|trace|].clk);
      }
    }
  }

  lemma {:induction false} ExclusivePush(spec: Spec, q: seq<FutureAction>, a: FutureAction)
    requires spec.Valid() && Exclusive(spec, q)
    ensures Exclusive(spec, q + [a]) <==> forall b :: b in q ==> SharesNoBank(spec, b, a)
  {
    if k :| 0 <= k < |q| && !SharesNoBank(spec, q[k], a) {
      assert !SharesNoBank(spec, (q + [a])[k], (q + [a])[|q|]);
    }
  }

  lemma {:induction false} PendingIsRecent(spec: Spec, t: Timings, log: seq<Event>, b: FutureAction) returns (i: nat)
    requires IsWired(spec, t) && spec.Valid() && ValidLog(spec, log) && t.nRFC >= 2 && b in Queue(spec, log)
    ensures i < |Trace(log)| && Trace(log)[i].cmd == b.cmd == REFAB && Trace(log)[i].addr == b.addr
    ensures Clock(log) < Trace(log)[i].clk + t.nRFC - 1 && |b.addr| == NUM_LEVELS
  {
    RefreshWiring(spec, t);
    TraceFacts(spec, log);
    i := QueuedIssue(spec, log, b);
  }

  lemma {:induction false} RecentIsPending(spec: Spec, t: Timings, log: seq<Event>, i: nat) returns (b: FutureAction)
    requires IsWired(spec, t) && i < |Trace(log)| && Trace(log)[i].cmd == REFAB
    requires Clock(log) < Trace(log)[i].clk + t.nRFC - 1
    ensures b in Queue(spec, log) && b.cmd == REFAB && b.addr == Trace(log)[i].addr
  {
    var iss := Trace(log)[i];
    b := FutureAction(REFAB, iss.addr, iss.clk + t.nRFC - 1);
    assert b in Pushed(spec, iss.cmd, iss.addr, iss.clk);
    QueueIsOutstanding(spec, log);
    OutstandingMembers(spec, Trace(log), Clock(log), b);
  }

  lemma {:induction false} DoubleRefreshGuarded(spec: Spec, t: Timings, addr: seq<int>)
    requires IsDdr4(spec, t) && spec.Valid() && spec.ValidAddr(addr)
    ensures var trace := [Issue(REFAB, addr, 0), Issue(REFAB, addr, 0)];
            ValidTrace(spec, trace) && Guarded(spec, trace)
  {
    var trace := [Issue(REFAB, addr, 0), Issue(REFAB, addr, 0)];
    forall j | 0 <= j < |trace|
      ensures Ready(spec, trace[..j], REFAB, addr, 0)
    {
      OnlyRefreshesBefore(spec, t, trace[..j], addr, 0);
    }
  }

  lemma {:induction false} DoubleRefreshShares(spec: Spec, t: Timings, bank: seq<nat>, addr: seq<int>)
    requires IsWired(spec, t) && spec.Valid()
    requires spec.ValidAddr(addr) && spec.ValidPath(bank) && |bank| == BANK + 1 && Agrees(bank, RANK + 1, addr)
    ensures var a := FutureAction(REFAB, addr, t.nRFC - 1); !Exclusive(spec, [a, a])
  {
    var a := FutureAction(REFAB, addr, t.nRFC - 1);
    assert Covers(spec, REFAB, addr, bank);
    assert !SharesNoBank(spec, [a, a][0], [a, a][1]);
  }

  lemma {:induction false} DoubleRefresh(spec: Spec, t: Timings, addr: seq<int>)
    requires IsWired(spec, t)
    ensures var log := [Cmd(REFAB, addr), Cmd(REFAB, addr)];
            var iss, a := Issue(REFAB, addr, 0), FutureAction(REFAB, addr, t.nRFC - 1);
            Trace(log) == [iss, iss] && Queue(spec, log) == [a, a]
  {
    var e := Cmd(REFAB, addr);
    assert Init([e, e]) == [e] && Init([e]) == [];
    assert Clock([e]) == 0 && Clock([e, e]) == 0;
    assert Trace([e]) == [Issue(REFAB, addr, 0)];
    assert Queue(spec, [e]) == [FutureAction(REFAB, addr, t.nRFC - 1)];
  }

  /** With nothing but refreshes issued so far, the table holds no further refresh back. */
  lemma {:induction false} OnlyRefreshesBefore(spec: Spec, t: Timings, trace: seq<Issue>, addr: seq<int>, clk: int)
    requires IsDdr4(spec, t) && spec.Valid()
    requires forall i :: 0 <= i < |trace| ==> trace[i].cmd == REFAB
    ensures Ready(spec, trace, REFAB, addr, clk)
  {
    forall path | spec.ValidPath(path)
      ensures Allows(spec.cons[|path| - 1], path, trace, REFAB, clk)
    {
      var lvl := spec.cons[|path| - 1];
      forall p: nat, e | Constrains(lvl, p, e, REFAB, path, trace)
        ensures false
      {
        PastNeedsIssue(e, p, path, trace);
        assert p == REFAB && Requested(Initializer(t), |path| - 1, p, e);
        NoRefreshAfterRefresh(t, |path| - 1, e);
      }
    }
  }

  lemma {:induction false} NoRefreshAfterRefresh(t: Timings, l: nat, e: TimingConsEntry)
    requires Requested(Initializer(t), l, REFAB, e)
    ensures e.cmd != REFAB
  {
  }

  lemma {:induction false} PastNeedsIssue(e: TimingConsEntry, p: nat, path: seq<nat>, trace: seq<Issue>)
    requires Past(e, p, path, trace).Some?
    ensures exists i :: 0 <= i < |trace| && trace[i].cmd == p
  {
    if trace != [] && trace[|trace| - 1].cmd != p {
      PastNeedsIssue(e, p, path, trace[..|trace| - 1]);
    }
  }
}
