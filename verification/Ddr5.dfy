/** The DDR5 device (dram/impl/DDR5.cpp): all-bank and same-bank refresh, RFM and directed RFM. */
module Ddr5 {
  import opened Wrappers
  import opened DramSpec
  import opened DramTiming
  import opened DramNode
  import opened DramRule
  import opened DramRun
  import opened DramSafety
  import opened DramBanks

  const ACT: nat := 0
  const PRE: nat := 1
  const PREA: nat := 2
  const PRESB: nat := 3
  const RD: nat := 4
  const WR: nat := 5
  const RDA: nat := 6
  const WRA: nat := 7
  const REFAB: nat := 8
  const REFSB: nat := 9
  const REFAB_END: nat := 10
  const REFSB_END: nat := 11
  const RFMAB: nat := 12
  const RFMSB: nat := 13
  const RFMAB_END: nat := 14
  const RFMSB_END: nat := 15
  const DRFMAB: nat := 16
  const DRFMSB: nat := 17
  const DRFMAB_END: nat := 18
  const DRFMSB_END: nat := 19
  const NUM_CMDS: nat := 20

  datatype Timings = Timings(
    nBL: int, nCL: int, nRCD: int, nRP: int, nRAS: int, nRC: int, nWR: int, nRTP: int, nCWL: int,
    nCCDS: int, nCCDS_WR: int, nCCDS_WTR: int, nCCDL: int, nCCDL_WR: int, nCCDL_WTR: int,
    nRRDS: int, nRRDL: int, nFAW: int, nCS: int,
    nRFC1: int, nRFCsb: int, nRFM1: int, nRFMsb: int, nDRFMab: int, nDRFMsb: int)

  function AllCommands(): (s: seq<nat>)
    ensures forall c: nat :: c in s <==> c < NUM_CMDS
  {
    var s: seq<nat> := seq(NUM_CMDS, (c: nat) => c);
    assert forall c: nat :: c < NUM_CMDS ==> c in s by {
      forall c: nat | c < NUM_CMDS
        ensures c in s
      {
        assert s[c] == c;
      }
    }
    s
  }

  const ALL_BANK: seq<nat> := [REFAB, RFMAB, DRFMAB]

  predicate IsAllBank(c: int) {
    c == REFAB || c == RFMAB || c == DRFMAB
  }

  predicate IsSameBank(c: int) {
    c == REFSB || c == RFMSB || c == DRFMSB
  }

  const ACT_AND_SAME_BANK: seq<nat> := [ACT, REFSB, RFMSB, DRFMSB]

  /** How long each refresh-type command keeps its banks. */
  function Latency(t: Timings, c: int): int {
    if c == REFAB then t.nRFC1 else if c == REFSB then t.nRFCsb
    else if c == RFMAB then t.nRFM1 else if c == RFMSB then t.nRFMsb
    else if c == DRFMAB then t.nDRFMab else t.nDRFMsb
  }

  /** An all-bank refresh holds the whole rank. */
  function AllBankHold(t: Timings, c: nat): TimingConsInitializer {
    Cons(RANK, [c], [ACT, PREA, REFAB, RFMAB, DRFMAB, REFSB, RFMSB, DRFMSB], Latency(t, c))
  }

  /** A same-bank refresh holds back all-bank commands of its rank. */
  function SameBankRankHold(t: Timings, c: nat): TimingConsInitializer {
    Cons(RANK, [c], [PREA, REFAB, RFMAB, DRFMAB], Latency(t, c))
  }

  /** A same-bank refresh holds its banks. */
  function SameBankHold(t: Timings, c: nat): TimingConsInitializer {
    Cons(BANK, [c], ACT_AND_SAME_BANK, Latency(t, c))
  }

  function Initializer(t: Timings): seq<TimingConsInitializer> {
    ChannelRows(t) + CasRows(t) + SwitchRows(t) + RasRows(t) + [FourActivates(ACT, t.nFAW)] + RefreshRows(t) +
    GroupRows(t) + BankRows(t)
  }

  function TwoCycles(): TimingConsInitializer {
    Cons(CHANNEL, [ACT, RD, RDA, WR, WRA], AllCommands(), 2)
  }

  /** Two-cycle commands, data bus occupancy. */
  function ChannelRows(t: Timings): seq<TimingConsInitializer> {
    [
      TwoCycles(),
      Cons(CHANNEL, [RD, RDA], [RD, RDA], t.nBL),
      Cons(CHANNEL, [WR, WRA], [WR, WRA], t.nBL)
    ]
  }

  /** Column commands of one rank, whatever the bank groups. */
  function CasRows(t: Timings): seq<TimingConsInitializer> {
    [
      Cons(RANK, [RD, RDA], [RD, RDA], t.nCCDS),
      Cons(RANK, [WR, WRA], [WR, WRA], t.nCCDS_WR),
      Cons(RANK, [RD, RDA], [WR, WRA], t.nCL + t.nBL + 2 - t.nCWL + 2),
      Cons(RANK, [WR, WRA], [RD, RDA], t.nCCDS_WTR),
      Cons(RANK, [RD], [PREA], t.nRTP),
      Cons(RANK, [WR], [PREA], t.nCWL + t.nBL + t.nWR)
    ]
  }

  /** CAS <-> CAS between sibling ranks. */
  function SwitchRows(t: Timings): seq<TimingConsInitializer> {
    [
      SiblingCons(RANK, [RD, RDA], [RD, RDA, WR, WRA], t.nBL + t.nCS),
      SiblingCons(RANK, [WR, WRA], [RD, RDA], t.nCL + t.nBL + t.nCS - t.nCWL)
    ]
  }

  /** Activations, precharges and refreshes of one rank. */
  function RasRows(t: Timings): seq<TimingConsInitializer> {
    [
      Cons(RANK, [ACT], [ACT], t.nRRDS),
      Cons(RANK, [ACT], [PREA], t.nRAS),
      Cons(RANK, [PREA], [ACT], t.nRP),
      Cons(RANK, [ACT], ALL_BANK, t.nRC),
      Cons(RANK, [PRE, PRESB], ALL_BANK, t.nRP),
      Cons(RANK, [PREA], [REFAB, RFMAB, DRFMAB, REFSB, RFMSB, DRFMSB], t.nRP),
      Cons(RANK, [RDA], ALL_BANK, t.nRP + t.nRTP),
      Cons(RANK, [WRA], ALL_BANK, t.nCWL + t.nBL + t.nWR + t.nRP)
    ]
  }

  function RefreshRows(t: Timings): seq<TimingConsInitializer> {
    [
      AllBankHold(t, REFAB),
      AllBankHold(t, RFMAB),
      AllBankHold(t, DRFMAB),
      SameBankRankHold(t, REFSB),
      SameBankRankHold(t, RFMSB),
      SameBankRankHold(t, DRFMSB)
    ]
  }

  function GroupRows(t: Timings): seq<TimingConsInitializer> {
    [
      Cons(BANKGROUP, [RD, RDA], [RD, RDA], t.nCCDL),
      Cons(BANKGROUP, [WR, WRA], [WR, WRA], t.nCCDL_WR),
      Cons(BANKGROUP, [WR, WRA], [RD, RDA], t.nCCDL_WTR),
      Cons(BANKGROUP, [ACT], [ACT], t.nRRDL)
    ]
  }

  function BankRows(t: Timings): seq<TimingConsInitializer> {
    [
      Cons(BANK, [ACT], ACT_AND_SAME_BANK, t.nRC),
      Cons(BANK, [ACT], [RD, RDA, WR, WRA], t.nRCD),
      Cons(BANK, [ACT], [PRE, PRESB], t.nRAS),
      Cons(BANK, [PRE, PRESB], ACT_AND_SAME_BANK, t.nRP),
      Cons(BANK, [RD], [PRE, PRESB], t.nRTP),
      Cons(BANK, [WR], [PRE, PRESB], t.nCWL + t.nBL + t.nWR),
      Cons(BANK, [RDA], ACT_AND_SAME_BANK, t.nRTP + t.nRP),
      Cons(BANK, [WRA], ACT_AND_SAME_BANK, t.nCWL + t.nBL + t.nWR + t.nRP),
      Cons(BANK, [WR], [RDA], t.nCWL + t.nBL + t.nWR - t.nRTP),
      SameBankHold(t, REFSB),
      SameBankHold(t, RFMSB),
      SameBankHold(t, DRFMSB)
    ]
  }

  function Scope(c: int): nat {
    if c == ACT then ROW
    else if c == RD || c == WR || c == RDA || c == WRA then COLUMN
    else if c == PREA || IsAllBank(c) || IsAllBank(c - 2) then RANK
    else BANK
  }

  function RankAction(c: int): GroupAction {
    if c == PREA then CloseBanks
    else if IsAllBank(c) then RefreshBanks
    else if IsAllBank(c - 2) then EndRefreshBanks
    else NoGroupAction
  }

  function BankGroupAction(c: int): GroupAction {
    if c == PRESB then CloseBanks
    else if IsSameBank(c) then RefreshBanks
    else if IsSameBank(c - 2) then EndRefreshBanks
    else NoGroupAction
  }

  function BankActionOf(c: int): BankAction {
    if c == ACT then Activate else if c == PRE || c == RDA || c == WRA then Precharge else NoBankAction
  }

  /** Each refresh-type command is completed by the command two places after it. */
  function FutureRuleOf(t: Timings, c: int): FutureRule {
    if IsAllBank(c) || IsSameBank(c) then Future(Latency(t, c), c + 2) else NoFuture
  }

  /** Scopes, actions and completions. */
  ghost predicate IsWired(spec: Spec, t: Timings) {
    && |spec.counts| == NUM_LEVELS
    && spec.scopes == seq(NUM_CMDS, c => Scope(c))
    && spec.rankActions == seq(NUM_CMDS, c => RankAction(c))
    && spec.bankGroupActions == seq(NUM_CMDS, c => BankGroupAction(c))
    && spec.bankActions == seq(NUM_CMDS, c => BankActionOf(c))
    && spec.future == seq(NUM_CMDS, c => FutureRuleOf(t, c))
    && WellFormed(spec.cons, NUM_CMDS)
  }

  ghost predicate IsDdr5(spec: Spec, t: Timings) {
    IsWired(spec, t) && Populates(spec.cons, NUM_CMDS, Initializer(t))
  }

  /** The device description, with its constraint table populated from the initializer list. */
  method CreateSpec(counts: seq<nat>, t: Timings) returns (spec: Spec)
    requires |counts| == NUM_LEVELS
    ensures IsDdr5(spec, t) && spec.Valid() && spec.counts == counts
  {
    InitializerValid(t);
    var cons := PopulateTimingCons(NUM_CMDS, Initializer(t));
    spec := Spec(counts, cons,
                 seq(NUM_CMDS, c => Scope(c)),
                 seq(NUM_CMDS, c => RankAction(c)),
                 seq(NUM_CMDS, c => BankGroupAction(c)),
                 seq(NUM_CMDS, c => BankActionOf(c)),
                 seq(NUM_CMDS, c => FutureRuleOf(t, c)));
  }

  predicate AllValid(init: seq<TimingConsInitializer>) {
    forall k :: 0 <= k < |init| ==> ValidInitializer(init[k], NUM_CMDS) && init[k].window >= 1
  }

  lemma {:induction false} InitializerValid(t: Timings)
    ensures AllValid(Initializer(t))
  {
    hide ChannelRows, CasRows, SwitchRows, RasRows, RefreshRows, GroupRows, BankRows, ValidInitializer;
    ChannelRowsValid(t);
    SwitchRowsValid(t);
    RankRowsValid(t);
    BankRowsValid(t);
  }

  lemma {:induction false} ChannelRowsValid(t: Timings)
    ensures AllValid(ChannelRows(t)) && AllValid(GroupRows(t))
  {
  }

  lemma {:induction false} SwitchRowsValid(t: Timings)
    ensures AllValid(SwitchRows(t)) && AllValid([FourActivates(ACT, t.nFAW)]) && AllValid(RefreshRows(t))
  {
  }

  lemma {:induction false} RankRowsValid(t: Timings)
    ensures AllValid(CasRows(t)) && AllValid(RasRows(t))
  {
  }

  lemma {:induction false} BankRowsValid(t: Timings)
    ensures AllValid(BankRows(t))
  {
  }

  /** An initializer's entry is in the table. */
  lemma {:induction false} EntryFor(spec: Spec, t: Timings, ts: TimingConsInitializer, p: nat, f: nat)
    requires IsDdr5(spec, t) && ts in Initializer(t) && ts.level < NUM_LEVELS
    requires p < NUM_CMDS && p in ts.preceding && f in ts.following
    ensures TimingConsEntry(f, ts.latency, ClampWindow(ts.window), ts.isSibling) in spec.cons[ts.level][p]
  {
    assert Generates(ts, ts.level, p, TimingConsEntry(f, ts.latency, ClampWindow(ts.window), ts.isSibling));
  }

  /** Four-activate window: in a guarded run, any five activations of one rank span at least nFAW cycles. */
  lemma {:induction false} FourActivateWindow(spec: Spec, t: Timings, trace: seq<Issue>, rank: seq<nat>, ks: seq<nat>)
    requires IsDdr5(spec, t) && spec.Valid() && ValidTrace(spec, trace) && Guarded(spec, trace)
    requires spec.ValidPath(rank) && |rank| == RANK + 1
    requires |ks| == 5 && forall m, n :: 0 <= m < n < 5 ==> ks[m] < ks[n]
    requires forall n :: 0 <= n < 5 ==> ks[n] < |trace| && trace[ks[n]].cmd == ACT && Matches(rank, trace[ks[n]].addr)
    ensures trace[ks[0]].clk + t.nFAW <= trace[ks[4]].clk
  {
    EntryFor(spec, t, FourActivates(ACT, t.nFAW), ACT, ACT);
    WindowSpan(spec, trace, ks, rank, TimingConsEntry(ACT, t.nFAW, 4, false));
  }

  ghost predicate LongEnough(t: Timings) {
    t.nRFC1 >= 2 && t.nRFCsb >= 2 && t.nRFM1 >= 2 && t.nRFMsb >= 2 && t.nDRFMab >= 2 && t.nDRFMsb >= 2
  }

  lemma {:induction false} RefreshWiring(spec: Spec, t: Timings)
    requires IsWired(spec, t) && spec.Valid()
    ensures RefreshWired(spec) && spec.scopes[ACT] == ROW
    ensures forall c: nat :: c < NUM_CMDS ==> (IsRefresh(spec, c) <==> IsAllBank(c) || IsSameBank(c))
    ensures forall c: nat :: c < NUM_CMDS && IsRefresh(spec, c) ==>
              spec.future[c].latency == Latency(t, c) && (AllBank(spec, c) <==> IsAllBank(c))
  {
    forall c: nat | c < NUM_CMDS
      ensures IsRefresh(spec, c) <==> IsAllBank(c) || IsSameBank(c)
      ensures IsAllBank(c) ==> AllBank(spec, c) && !SameBank(spec, c)
      ensures IsSameBank(c) ==> SameBank(spec, c) && !AllBank(spec, c)
      ensures !IsRefresh(spec, c) ==> spec.rankActions[c] != RefreshBanks && spec.bankGroupActions[c] != RefreshBanks
    {
      WiringOf(spec, t, c);
    }
  }

  lemma {:induction false} WiringOf(spec: Spec, t: Timings, c: nat)
    requires IsWired(spec, t) && spec.Valid() && c < NUM_CMDS
    ensures IsRefresh(spec, c) <==> IsAllBank(c) || IsSameBank(c)
    ensures IsAllBank(c) ==> AllBank(spec, c) && !SameBank(spec, c)
    ensures IsSameBank(c) ==> SameBank(spec, c) && !AllBank(spec, c)
    ensures !IsRefresh(spec, c) ==> spec.rankActions[c] != RefreshBanks && spec.bankGroupActions[c] != RefreshBanks
  {
    if IsAllBank(c) || IsSameBank(c) {
      assert spec.rankActions[c + 2] == RankAction(c + 2) && spec.bankGroupActions[c + 2] == BankGroupAction(c + 2);
    }
  }

  // ------------------------------------------------------------ banks

  /** What each command does to a bank. */
  function Effect(c: nat, addr: seq<int>, bank: seq<nat>, s: BankState): BankState
    requires |addr| == NUM_LEVELS
  {
    if c == ACT && AtBank(addr, bank) then BankState(Opened, s.rows + {addr[ROW]})
    else if c in {PRE, RDA, WRA} && AtBank(addr, bank) then BankState(Closed, {})
    else if c == PRESB && AtNumber(addr, bank) then BankState(Closed, {})
    else if c == PREA && AtRank(addr, bank) then BankState(Closed, {})
    else if c in {REFAB, RFMAB, DRFMAB} && AtRank(addr, bank) then s.(state := Refreshing)
    else if c in {REFSB, RFMSB, DRFMSB} && AtNumber(addr, bank) then s.(state := Refreshing)
    else if c in {REFAB_END, RFMAB_END, DRFMAB_END} && AtRank(addr, bank) then s.(state := Closed)
    else if c in {REFSB_END, RFMSB_END, DRFMSB_END} && AtNumber(addr, bank) then BankState(Closed, {})
    else s
  }

  /** The actions wired into the tree have that effect. */
  lemma {:induction false} CommandEffect(spec: Spec, t: Timings, bank: seq<nat>, c: nat, addr: seq<int>, s: BankState)
    requires IsWired(spec, t) && spec.Valid() && c < NUM_CMDS && spec.ValidAddr(addr) && |bank| == BANK + 1
    ensures StepState(spec, CHANNEL, bank, c, addr, s) == Effect(c, addr, bank, s)
  {
    hide StepState, Agrees;
    Unroll(spec, bank, c, addr, s);
    AddressedAt(spec, addr, bank);
  }

  /** After any run, a command leaves exactly the banks it reaches opened, closed or in refresh. */
  lemma {:induction false} AfterCommand(spec: Spec, t: Timings, bank: seq<nat>, log: seq<Event>, c: nat, addr: seq<int>)
    requires IsWired(spec, t) && spec.Valid() && c < NUM_CMDS && spec.ValidAddr(addr) && |bank| == BANK + 1
    ensures StateAfter(spec, bank, log + [Cmd(c, addr)]) == Effect(c, addr, bank, StateAfter(spec, bank, log))
  {
    assert Init(log + [Cmd(c, addr)]) == log;
    CommandEffect(spec, t, bank, c, addr, StateAfter(spec, bank, log));
  }

  const ROLES: Roles := Roles(REFAB, ACT, {PRE, RDA, WRA}, {PRESB}, {PREA})

  /**
   * In runs without refresh or refresh management, a bank is open exactly when some ACT of it has been
   * followed by no PRE, RDA or WRA of the bank, no PREsb of its number and no PREA of its rank, and its
   * open rows are the rows of those ACTs.
   */
  lemma {:induction false} OpenRowsOf(spec: Spec, t: Timings, bank: seq<nat>, log: seq<Event>)
    requires IsWired(spec, t) && spec.Valid() && ValidLog(spec, log) && |bank| == BANK + 1
    requires forall i :: 0 <= i < |log| && log[i].Cmd? ==> log[i].cmd < REFAB
    ensures StateAfter(spec, bank, log).state == Opened || StateAfter(spec, bank, log).state == Closed
    ensures StateAfter(spec, bank, log).state == Opened <==> exists i :: Standing(ROLES, bank, log, i)
    ensures forall row :: row in StateAfter(spec, bank, log).rows <==>
              exists i :: Standing(ROLES, bank, log, i) && log[i].addr[ROW] == row
  {
    hide StateAfter, StepState;
    forall c: nat, addr, s | c < REFAB && spec.ValidAddr(addr)
      ensures StepState(spec, CHANNEL, bank, c, addr, s) == Effect(c, addr, bank, s)
    {
      CommandEffect(spec, t, bank, c, addr, s);
    }
    RefreshWiring(spec, t);
    assert Plays(spec, ROLES, bank);
    OpenRows(spec, ROLES, bank, log);
  }

  lemma {:induction false} AllBankEntry(spec: Spec, t: Timings, c: nat, d: nat)
    requires IsDdr5(spec, t) && spec.Valid() && IsAllBank(c) && (d == ACT || IsAllBank(d) || IsSameBank(d))
    ensures HasEntry(spec, RANK, c, d, Latency(t, c))
  {
    EntryFor(spec, t, AllBankHold(t, c), c, d);
  }

  lemma {:induction false} SameBankRankEntry(spec: Spec, t: Timings, c: nat, d: nat)
    requires IsDdr5(spec, t) && spec.Valid() && IsSameBank(c) && IsAllBank(d)
    ensures HasEntry(spec, RANK, c, d, Latency(t, c))
  {
    EntryFor(spec, t, SameBankRankHold(t, c), c, d);
  }

  lemma {:induction false} SameBankEntry(spec: Spec, t: Timings, c: nat, d: nat)
    requires IsDdr5(spec, t) && spec.Valid() && IsSameBank(c) && (d == ACT || IsSameBank(d))
    ensures HasEntry(spec, BANK, c, d, Latency(t, c))
  {
    EntryFor(spec, t, SameBankHold(t, c), c, d);
  }

  lemma {:induction false} ActivateHeld(spec: Spec, t: Timings)
    requires IsDdr5(spec, t) && spec.Valid() && RefreshWired(spec)
    ensures HoldsBackActivate(spec, ACT)
  {
    RefreshWiring(spec, t);
    forall c: nat | c < NUM_CMDS && IsRefresh(spec, c)
      ensures HasEntry(spec, if AllBank(spec, c) then RANK else BANK, c, ACT, spec.future[c].latency)
    {
      if IsAllBank(c) {
        AllBankEntry(spec, t, c, ACT);
      } else {
        SameBankEntry(spec, t, c, ACT);
      }
    }
  }

  lemma {:induction false} RefreshHeld(spec: Spec, t: Timings)
    requires IsDdr5(spec, t) && spec.Valid() && RefreshWired(spec)
    ensures HoldsBackRefresh(spec)
  {
    RefreshWiring(spec, t);
    forall c: nat, d: nat | c < NUM_CMDS && d < NUM_CMDS && IsRefresh(spec, c) && IsRefresh(spec, d)
      ensures HasEntry(spec, if AllBank(spec, c) || AllBank(spec, d) then RANK else BANK, c, d, spec.future[c].latency)
    {
      if IsAllBank(c) {
        AllBankEntry(spec, t, c, d);
      } else if IsAllBank(d) {
        SameBankRankEntry(spec, t, c, d);
      } else {
        SameBankEntry(spec, t, c, d);
      }
    }
  }

  lemma {:induction false} LatenciesLong(spec: Spec, t: Timings)
    requires IsWired(spec, t) && LongEnough(t)
    ensures LatenciesOk(spec)
  {
  }

  lemma {:induction false} RefreshFacts(spec: Spec, t: Timings)
    requires IsDdr5(spec, t) && spec.Valid() && LongEnough(t)
    ensures LatenciesOk(spec) && RefreshWired(spec)
    ensures HoldsBackActivate(spec, ACT) && HoldsBackRefresh(spec)
  {
    LatenciesLong(spec, t);
    RefreshWiring(spec, t);
    ActivateHeld(spec, t);
    RefreshHeld(spec, t);
  }

  /**
   * Refresh exclusivity: in every guarded run, at most one pending refresh, RFM or directed RFM covers
   * any bank; a refreshing bank has one; and no activation is ready on a covered bank.
   */
  lemma {:induction false} RefreshSafety(spec: Spec, t: Timings, log: seq<Event>)
    requires IsDdr5(spec, t) && spec.Valid() && ValidLog(spec, log) && LongEnough(t)
    requires ValidTrace(spec, Trace(log)) && Guarded(spec, Trace(log))
    ensures Exclusive(spec, Queue(spec, log))
    ensures forall bank :: |bank| == BANK + 1 && StateAfter(spec, bank, log).state == Refreshing ==>
              exists a :: && a in Queue(spec, log) && a.cmd < spec.NumCmds() && |a.addr| == NUM_LEVELS
                          && Covers(spec, a.cmd, a.addr, bank) && Clock(log) < a.clk
  {
    RefreshFacts(spec, t);
    RefreshExclusive(spec, log);
    forall bank | |bank| == BANK + 1 && StateAfter(spec, bank, log).state == Refreshing
      ensures exists a :: && a in Queue(spec, log) && a.cmd < spec.NumCmds() && |a.addr| == NUM_LEVELS
                          && Covers(spec, a.cmd, a.addr, bank) && Clock(log) < a.clk
    {
      RefreshingHasPending(spec, bank, log);
      var a :| && a in Queue(spec, log) && a.cmd < spec.NumCmds() && |a.addr| == NUM_LEVELS
               && Covers(spec, a.cmd, a.addr, bank);
      QueueInFuture(spec, log, a);
    }
  }

  /** In any run, no activation is ready on a bank a pending refresh covers. */
  lemma {:induction false} NoActivateOnCovered(spec: Spec, t: Timings, log: seq<Event>, a: FutureAction,
                                               bank: seq<nat>, addr: seq<int>)
    requires IsDdr5(spec, t) && spec.Valid() && ValidLog(spec, log) && LongEnough(t)
    requires a in Queue(spec, log) && a.cmd < spec.NumCmds() && |a.addr| == |addr| == NUM_LEVELS
    requires spec.ValidPath(bank) && |bank| == BANK + 1 && Covers(spec, a.cmd, a.addr, bank) && Matches(bank, addr)
    ensures !Ready(spec, Trace(log), ACT, addr, Clock(log))
  {
    RefreshFacts(spec, t);
    NoActivateWhilePending(spec, log, ACT, a, bank, addr);
  }

  /**
   * A same-bank command addressed to bank b with a wildcard bank group covers exactly bank b of every
   * bank group of the rank: those become Refreshing and every other bank keeps its state.
   */
  lemma {:induction false} SameBankCoversColumn(spec: Spec, t: Timings, c: nat, addr: seq<int>, bank: seq<nat>,
                                                s: BankState)
    requires IsWired(spec, t) && spec.Valid() && IsSameBank(c)
    requires spec.ValidAddr(addr) && addr[RANK] >= 0 && addr[BANKGROUP] == -1 && addr[BANK] >= 0
    requires spec.ValidPath(bank) && |bank| == BANK + 1
    ensures StepState(spec, CHANNEL, bank, c, addr, s) ==
            if bank[CHANNEL] == addr[CHANNEL] && bank[RANK] == addr[RANK] && bank[BANK] == addr[BANK]
            then s.(state := Refreshing) else s
  {
    RefreshWiring(spec, t);
    RefreshStart(spec, bank, c, addr, s);
  }
}
