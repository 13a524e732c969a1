/** The timing of DDR5 in named spacings: when a command is ready, and what every guarded run keeps. */
module Ddr5Spacing {
  import opened DramSpec
  import opened DramTiming
  import opened DramNode
  import opened DramRule
  import opened DramSafety
  import opened DramSpacing
  import opened Ddr5

  predicate Reads(c: nat) {
    c == RD || c == RDA
  }

  predicate Writes(c: nat) {
    c == WR || c == WRA
  }

  // ------------------------------------------------------------ the named spacings, for a gap between p and c

  /** On one channel: two-cycle commands, and the data bus is occupied. */
  predicate ChannelSpaced(t: Timings, p: nat, c: nat, gap: int) {
    && ((p == ACT || Reads(p) || Writes(p)) && c < NUM_CMDS ==> 2 <= gap)
    && (Reads(p) && Reads(c) ==> t.nBL <= gap)
    && (Writes(p) && Writes(c) ==> t.nBL <= gap)
  }

  /** In one rank, whatever the bank groups: column commands. */
  predicate CasSpaced(t: Timings, p: nat, c: nat, gap: int) {
    && (Reads(p) && Reads(c) ==> t.nCCDS <= gap)
    && (Writes(p) && Writes(c) ==> t.nCCDS_WR <= gap)
    && (Reads(p) && Writes(c) ==> t.nCL + t.nBL + 4 - t.nCWL <= gap)
    && (Writes(p) && Reads(c) ==> t.nCCDS_WTR <= gap)
    && (p == RD && c == PREA ==> t.nRTP <= gap)
    && (p == WR && c == PREA ==> t.nCWL + t.nBL + t.nWR <= gap)
  }

  /** Between ranks of one channel: the bus is handed over. */
  predicate SwitchSpaced(t: Timings, p: nat, c: nat, gap: int) {
    && (Reads(p) && (Reads(c) || Writes(c)) ==> t.nBL + t.nCS <= gap)
    && (Writes(p) && Reads(c) ==> t.nCL + t.nBL + t.nCS - t.nCWL <= gap)
  }

  /** In one rank: activations, precharges and refreshes. */
  predicate RasSpaced(t: Timings, p: nat, c: nat, gap: int) {
    && (p == ACT && c == ACT ==> t.nRRDS <= gap)
    && (p == ACT && c == PREA ==> t.nRAS <= gap)
    && (p == PREA && c == ACT ==> t.nRP <= gap)
    && (p == ACT && c in {REFAB, RFMAB, DRFMAB} ==> t.nRC <= gap)
    && ((p == PRE || p == PRESB || p == PREA) && c in {REFAB, RFMAB, DRFMAB} ==> t.nRP <= gap)
    && (p == PREA && c in {REFSB, RFMSB, DRFMSB} ==> t.nRP <= gap)
    && (p == RDA && c in {REFAB, RFMAB, DRFMAB} ==> t.nRTP + t.nRP <= gap)
    && (p == WRA && c in {REFAB, RFMAB, DRFMAB} ==> t.nCWL + t.nBL + t.nWR + t.nRP <= gap)
  }

  /** In one rank: refreshes, RFM and directed RFM. */
  predicate RefreshSpaced(t: Timings, p: nat, c: nat, gap: int) {
    && (p == REFAB && c in {ACT, PREA, REFAB, RFMAB, DRFMAB, REFSB, RFMSB, DRFMSB} ==> t.nRFC1 <= gap)
    && (p == RFMAB && c in {ACT, PREA, REFAB, RFMAB, DRFMAB, REFSB, RFMSB, DRFMSB} ==> t.nRFM1 <= gap)
    && (p == DRFMAB && c in {ACT, PREA, REFAB, RFMAB, DRFMAB, REFSB, RFMSB, DRFMSB} ==> t.nDRFMab <= gap)
    && (p == REFSB && c in {PREA, REFAB, RFMAB, DRFMAB} ==> t.nRFCsb <= gap)
    && (p == RFMSB && c in {PREA, REFAB, RFMAB, DRFMAB} ==> t.nRFMsb <= gap)
    && (p == DRFMSB && c in {PREA, REFAB, RFMAB, DRFMAB} ==> t.nDRFMsb <= gap)
  }

  /** In one bank group. */
  predicate GroupSpaced(t: Timings, p: nat, c: nat, gap: int) {
    && (Reads(p) && Reads(c) ==> t.nCCDL <= gap)
    && (Writes(p) && Writes(c) ==> t.nCCDL_WR <= gap)
    && (Writes(p) && Reads(c) ==> t.nCCDL_WTR <= gap)
    && (p == ACT && c == ACT ==> t.nRRDL <= gap)
  }

  /** At one bank. */
  predicate BankSpaced(t: Timings, p: nat, c: nat, gap: int) {
    && (p == ACT && (c == ACT || c in {REFSB, RFMSB, DRFMSB}) ==> t.nRC <= gap)
    && (p == ACT && (Reads(c) || Writes(c)) ==> t.nRCD <= gap)
    && (p == ACT && (c == PRE || c == PRESB) ==> t.nRAS <= gap)
    && ((p == PRE || p == PRESB) && (c == ACT || c in {REFSB, RFMSB, DRFMSB}) ==> t.nRP <= gap)
    && (p == RD && (c == PRE || c == PRESB) ==> t.nRTP <= gap)
    && (p == WR && (c == PRE || c == PRESB) ==> t.nCWL + t.nBL + t.nWR <= gap)
    && (p == RDA && (c == ACT || c in {REFSB, RFMSB, DRFMSB}) ==> t.nRTP + t.nRP <= gap)
    && (p == WRA && (c == ACT || c in {REFSB, RFMSB, DRFMSB}) ==> t.nCWL + t.nBL + t.nWR + t.nRP <= gap)
    && (p == WR && c == RDA ==> t.nCWL + t.nBL + t.nWR - t.nRTP <= gap)
    && (p == REFSB && (c == ACT || c in {REFSB, RFMSB, DRFMSB}) ==> t.nRFCsb <= gap)
    && (p == RFMSB && (c == ACT || c in {REFSB, RFMSB, DRFMSB}) ==> t.nRFMsb <= gap)
    && (p == DRFMSB && (c == ACT || c in {REFSB, RFMSB, DRFMSB}) ==> t.nDRFMsb <= gap)
  }

  /** What an earlier issue asks of `c`: the commands, the timings and where the two addresses meet. */
  predicate Apart(t: Timings, ranks: nat, p: Issue, c: nat, addr: seq<int>, clk: int) {
    var gap := clk - p.clk;
    && (Meet(p.addr, addr, CHANNEL) ==> ChannelSpaced(t, p.cmd, c, gap))
    && (Meet(p.addr, addr, RANK) ==> CasSpaced(t, p.cmd, c, gap))
    && (OtherRank(ranks, p.addr, addr) ==> SwitchSpaced(t, p.cmd, c, gap))
    && (Meet(p.addr, addr, RANK) ==> RasSpaced(t, p.cmd, c, gap))
    && (Meet(p.addr, addr, RANK) ==> RefreshSpaced(t, p.cmd, c, gap))
    && (Meet(p.addr, addr, BANKGROUP) ==> GroupSpaced(t, p.cmd, c, gap))
    && (Meet(p.addr, addr, BANK) ==> BankSpaced(t, p.cmd, c, gap))
  }

  // ------------------------------------------------------------ the rows of the table say the same

  /** The same with the rows themselves. */
  ghost predicate RowsApart(t: Timings, ranks: nat, p: Issue, c: nat, addr: seq<int>, clk: int) {
    var gap := clk - p.clk;
    && (Meet(p.addr, addr, CHANNEL) ==> RowsHold(ChannelRows(t), p.cmd, c, gap))
    && (Meet(p.addr, addr, RANK) ==> RowsHold(CasRows(t), p.cmd, c, gap))
    && (OtherRank(ranks, p.addr, addr) ==> RowsHold(SwitchRows(t), p.cmd, c, gap))
    && (Meet(p.addr, addr, RANK) ==> RowsHold(RasRows(t), p.cmd, c, gap))
    && (Meet(p.addr, addr, RANK) ==> RowsHold(RefreshRows(t), p.cmd, c, gap))
    && (Meet(p.addr, addr, BANKGROUP) ==> RowsHold(GroupRows(t), p.cmd, c, gap))
    && (Meet(p.addr, addr, BANK) ==> RowsHold(BankRows(t), p.cmd, c, gap))
  }

  lemma {:induction false} TwoCyclesMean(p: nat, c: nat, gap: int)
    ensures Holds(TwoCycles(), p, c, gap) <==>
            ((p == ACT || Reads(p) || Writes(p)) && c < NUM_CMDS ==> 2 <= gap)
  {
  }

  lemma {:induction false} ChannelRowsMean(t: Timings, p: nat, c: nat, gap: int)
    ensures RowsHold(ChannelRows(t), p, c, gap) <==> ChannelSpaced(t, p, c, gap)
  {
    hide TwoCycles;
    TwoCyclesMean(p, c, gap);
    var rows := ChannelRows(t);
    if RowsHold(rows, p, c, gap) {
      assert Holds(rows[0], p, c, gap) && Holds(rows[1], p, c, gap) && Holds(rows[2], p, c, gap);
    }
  }

  lemma {:induction false} CasRowsMean(t: Timings, p: nat, c: nat, gap: int)
    ensures RowsHold(CasRows(t), p, c, gap) <==> CasSpaced(t, p, c, gap)
  {
    var rows := CasRows(t);
    if RowsHold(rows, p, c, gap) {
      assert Holds(rows[0], p, c, gap) && Holds(rows[1], p, c, gap) && Holds(rows[2], p, c, gap);
      assert Holds(rows[3], p, c, gap) && Holds(rows[4], p, c, gap) && Holds(rows[5], p, c, gap);
    }
  }

  lemma {:induction false} SwitchRowsMean(t: Timings, p: nat, c: nat, gap: int)
    ensures RowsHold(SwitchRows(t), p, c, gap) <==> SwitchSpaced(t, p, c, gap)
  {
    var rows := SwitchRows(t);
    if RowsHold(rows, p, c, gap) {
      assert Holds(rows[0], p, c, gap) && Holds(rows[1], p, c, gap);
    }
  }

  lemma {:induction false} RasRowsMean(t: Timings, p: nat, c: nat, gap: int)
    ensures RowsHold(RasRows(t), p, c, gap) <==> RasSpaced(t, p, c, gap)
  {
    var rows := RasRows(t);
    if RowsHold(rows, p, c, gap) {
      assert Holds(rows[0], p, c, gap) && Holds(rows[1], p, c, gap) && Holds(rows[2], p, c, gap);
      assert Holds(rows[3], p, c, gap) && Holds(rows[4], p, c, gap) && Holds(rows[5], p, c, gap);
      assert Holds(rows[6], p, c, gap) && Holds(rows[7], p, c, gap);
    }
  }

  lemma {:induction false} RefreshRowsMean(t: Timings, p: nat, c: nat, gap: int)
    ensures RowsHold(RefreshRows(t), p, c, gap) <==> RefreshSpaced(t, p, c, gap)
  {
    var rows := RefreshRows(t);
    if RowsHold(rows, p, c, gap) {
      assert Holds(rows[0], p, c, gap) && Holds(rows[1], p, c, gap) && Holds(rows[2], p, c, gap);
      assert Holds(rows[3], p, c, gap) && Holds(rows[4], p, c, gap) && Holds(rows[5], p, c, gap);
    }
  }

  lemma {:induction false} GroupRowsMean(t: Timings, p: nat, c: nat, gap: int)
    ensures RowsHold(GroupRows(t), p, c, gap) <==> GroupSpaced(t, p, c, gap)
  {
    var rows := GroupRows(t);
    if RowsHold(rows, p, c, gap) {
      assert Holds(rows[0], p, c, gap) && Holds(rows[1], p, c, gap) && Holds(rows[2], p, c, gap);
      assert Holds(rows[3], p, c, gap);
    }
  }

  lemma {:induction false} BankRowsMean(t: Timings, p: nat, c: nat, gap: int)
    ensures RowsHold(BankRows(t), p, c, gap) <==> BankSpaced(t, p, c, gap)
  {
    var rows := BankRows(t);
    if RowsHold(rows, p, c, gap) {
      assert Holds(rows[0], p, c, gap) && Holds(rows[1], p, c, gap) && Holds(rows[2], p, c, gap);
      assert Holds(rows[3], p, c, gap) && Holds(rows[4], p, c, gap) && Holds(rows[5], p, c, gap);
      assert Holds(rows[6], p, c, gap) && Holds(rows[7], p, c, gap) && Holds(rows[8], p, c, gap);
      assert Holds(rows[9], p, c, gap) && Holds(rows[10], p, c, gap) && Holds(rows[11], p, c, gap);
    }
  }

  predicate AllShaped(spec: Spec, rows: seq<TimingConsInitializer>) {
    forall k :: 0 <= k < |rows| ==> Shaped(spec, rows[k])
  }

  lemma {:induction false} TwoCyclesShaped(spec: Spec, t: Timings)
    requires IsWired(spec, t)
    ensures Shaped(spec, TwoCycles())
    ensures TwoCycles().level == CHANNEL && TwoCycles().window == 1 && !TwoCycles().isSibling
  {
  }

  predicate Plain(ts: TimingConsInitializer, level: nat) {
    ts.level == level && ts.window == 1 && !ts.isSibling
  }

  lemma {:induction false} HoldsShaped(spec: Spec, t: Timings)
    requires IsWired(spec, t)
    ensures forall c :: IsAllBank(c) ==> Shaped(spec, AllBankHold(t, c)) && Plain(AllBankHold(t, c), RANK)
    ensures forall c :: IsSameBank(c) ==>
              Shaped(spec, SameBankRankHold(t, c)) && Plain(SameBankRankHold(t, c), RANK)
    ensures forall c :: IsSameBank(c) ==> Shaped(spec, SameBankHold(t, c)) && Plain(SameBankHold(t, c), BANK)
  {
    hide Latency;
  }

  lemma {:induction false} ChannelRowsShaped(spec: Spec, t: Timings)
    requires IsWired(spec, t)
    ensures AllShaped(spec, ChannelRows(t)) && OnLevel(ChannelRows(t), CHANNEL)
  {
    hide TwoCycles;
    TwoCyclesShaped(spec, t);
  }

  lemma {:induction false} CasRowsShaped(spec: Spec, t: Timings)
    requires IsWired(spec, t)
    ensures AllShaped(spec, CasRows(t)) && OnLevel(CasRows(t), RANK)
  {
  }

  lemma {:induction false} SwitchRowsShaped(spec: Spec, t: Timings)
    requires IsWired(spec, t)
    ensures AllShaped(spec, SwitchRows(t)) && BetweenRanks(SwitchRows(t))
  {
  }

  lemma {:induction false} RasRowsShaped(spec: Spec, t: Timings)
    requires IsWired(spec, t)
    ensures AllShaped(spec, RasRows(t)) && OnLevel(RasRows(t), RANK)
  {
  }

  lemma {:induction false} RefreshRowsShaped(spec: Spec, t: Timings)
    requires IsWired(spec, t)
    ensures AllShaped(spec, RefreshRows(t)) && OnLevel(RefreshRows(t), RANK)
  {
    hide AllBankHold, SameBankRankHold, Shaped;
    HoldsShaped(spec, t);
  }

  lemma {:induction false} GroupRowsShaped(spec: Spec, t: Timings)
    requires IsWired(spec, t)
    ensures AllShaped(spec, GroupRows(t)) && OnLevel(GroupRows(t), BANKGROUP)
  {
  }

  lemma {:induction false} BankRowsShaped(spec: Spec, t: Timings)
    requires IsWired(spec, t)
    ensures AllShaped(spec, BankRows(t)) && OnLevel(BankRows(t), BANK)
  {
    hide SameBankHold;
    HoldsShaped(spec, t);
  }

  lemma {:induction false} TableShaped(spec: Spec, t: Timings)
    requires IsDdr5(spec, t) && spec.Valid() && HasBanks(spec)
    ensures Tabled(spec, Initializer(t))
  {
    hide ChannelRows, CasRows, SwitchRows, RasRows, RefreshRows, GroupRows, BankRows, Shaped, IsWired, Populates;
    ChannelRowsShaped(spec, t);
    CasRowsShaped(spec, t);
    SwitchRowsShaped(spec, t);
    RasRowsShaped(spec, t);
    RefreshRowsShaped(spec, t);
    GroupRowsShaped(spec, t);
    BankRowsShaped(spec, t);
    WindowShaped(spec, t);
    assert AllShaped(spec, Initializer(t));
  }

  lemma {:induction false} WindowShaped(spec: Spec, t: Timings)
    requires IsWired(spec, t)
    ensures AllShaped(spec, [FourActivates(ACT, t.nFAW)])
    ensures |spec.scopes| == NUM_CMDS
  {
  }

  lemma {:induction false} TableObeyed(spec: Spec, t: Timings, trace: seq<Issue>, c: nat, addr: seq<int>,
                                       clk: int)
    requires |spec.counts| == |addr| == NUM_LEVELS
    ensures Obeyed(spec, Initializer(t), trace, c, addr, clk) <==>
            && Obeyed(spec, ChannelRows(t), trace, c, addr, clk)
            && Obeyed(spec, CasRows(t), trace, c, addr, clk)
            && Obeyed(spec, SwitchRows(t), trace, c, addr, clk)
            && Obeyed(spec, RasRows(t), trace, c, addr, clk)
            && Obeyed(spec, [FourActivates(ACT, t.nFAW)], trace, c, addr, clk)
            && Obeyed(spec, RefreshRows(t), trace, c, addr, clk)
            && Obeyed(spec, GroupRows(t), trace, c, addr, clk)
            && Obeyed(spec, BankRows(t), trace, c, addr, clk)
  {
    hide Obeyed, ChannelRows, CasRows, SwitchRows, RasRows, RefreshRows, GroupRows, BankRows;
    var rows := ChannelRows(t);
    ObeyedConcat(spec, rows, CasRows(t), trace, c, addr, clk);
    rows := rows + CasRows(t);
    ObeyedConcat(spec, rows, SwitchRows(t), trace, c, addr, clk);
    rows := rows + SwitchRows(t);
    ObeyedConcat(spec, rows, RasRows(t), trace, c, addr, clk);
    rows := rows + RasRows(t);
    ObeyedConcat(spec, rows, [FourActivates(ACT, t.nFAW)], trace, c, addr, clk);
    rows := rows + [FourActivates(ACT, t.nFAW)];
    ObeyedConcat(spec, rows, RefreshRows(t), trace, c, addr, clk);
    rows := rows + RefreshRows(t);
    ObeyedConcat(spec, rows, GroupRows(t), trace, c, addr, clk);
    rows := rows + GroupRows(t);
    ObeyedConcat(spec, rows, BankRows(t), trace, c, addr, clk);
  }

  lemma {:induction false} RowsMean(t: Timings, p: nat, c: nat, gap: int)
    ensures RowsHold(ChannelRows(t), p, c, gap) <==> ChannelSpaced(t, p, c, gap)
    ensures RowsHold(CasRows(t), p, c, gap) <==> CasSpaced(t, p, c, gap)
    ensures RowsHold(SwitchRows(t), p, c, gap) <==> SwitchSpaced(t, p, c, gap)
    ensures RowsHold(RasRows(t), p, c, gap) <==> RasSpaced(t, p, c, gap)
    ensures RowsHold(RefreshRows(t), p, c, gap) <==> RefreshSpaced(t, p, c, gap)
    ensures RowsHold(GroupRows(t), p, c, gap) <==> GroupSpaced(t, p, c, gap)
    ensures RowsHold(BankRows(t), p, c, gap) <==> BankSpaced(t, p, c, gap)
  {
    hide RowsHold, ChannelSpaced, CasSpaced, SwitchSpaced, RasSpaced, RefreshSpaced, GroupSpaced, BankSpaced;
    ChannelRowsMean(t, p, c, gap);
    CasRowsMean(t, p, c, gap);
    SwitchRowsMean(t, p, c, gap);
    RasRowsMean(t, p, c, gap);
    RefreshRowsMean(t, p, c, gap);
    GroupRowsMean(t, p, c, gap);
    BankRowsMean(t, p, c, gap);
  }

  /**
   * A command is ready exactly when every earlier issue is far enough away, by the named timings at
   * the level where the two addresses meet, and an ACT also when the last four ACTs of its rank span
   * the four-activate window.
   */
  lemma {:induction false} ReadyIff(spec: Spec, t: Timings, trace: seq<Issue>, c: nat, addr: seq<int>, clk: int)
    requires IsDdr5(spec, t) && spec.Valid() && HasBanks(spec)
    requires ValidTrace(spec, trace) && spec.ValidAddr(addr) && c < NUM_CMDS
    ensures spec.NumCmds() == NUM_CMDS
    ensures Ready(spec, trace, c, addr, clk) <==>
            (forall i :: 0 <= i < |trace| ==> Apart(t, spec.counts[RANK], trace[i], c, addr, clk)) &&
            (c == ACT ==> WindowApart(spec, ACT, 4, t.nFAW, trace, addr, clk))
  {
    hide Initializer, Ready, Tabled, Populates, Obeyed, WindowApart, Meet, OtherRank, ValidTrace, RowsHold;
    hide ChannelSpaced, CasSpaced, SwitchSpaced, RasSpaced, RefreshSpaced, GroupSpaced, BankSpaced;
    hide ChannelRows, CasRows, SwitchRows, RasRows, RefreshRows, GroupRows, BankRows;
    WindowShaped(spec, t);
    TableShaped(spec, t);
    ReadyIffRows(spec, Initializer(t), trace, c, addr, clk);
    TableObeyed(spec, t, trace, c, addr, clk);
    WindowObeyed(spec, ACT, t.nFAW, trace, c, addr, clk);
    ChannelRowsShaped(spec, t);
    LevelObeyed(spec, ChannelRows(t), CHANNEL, trace, c, addr, clk);
    CasRowsShaped(spec, t);
    LevelObeyed(spec, CasRows(t), RANK, trace, c, addr, clk);
    SwitchRowsShaped(spec, t);
    RanksObeyed(spec, SwitchRows(t), trace, c, addr, clk);
    RasRowsShaped(spec, t);
    LevelObeyed(spec, RasRows(t), RANK, trace, c, addr, clk);
    RefreshRowsShaped(spec, t);
    LevelObeyed(spec, RefreshRows(t), RANK, trace, c, addr, clk);
    GroupRowsShaped(spec, t);
    LevelObeyed(spec, GroupRows(t), BANKGROUP, trace, c, addr, clk);
    BankRowsShaped(spec, t);
    LevelObeyed(spec, BankRows(t), BANK, trace, c, addr, clk);
    forall i | 0 <= i < |trace|
      ensures Apart(t, spec.counts[RANK], trace[i], c, addr, clk) <==>
              RowsApart(t, spec.counts[RANK], trace[i], c, addr, clk)
    {
      RowsMean(t, trace[i].cmd, c, clk - trace[i].clk);
    }
  }

  /** In a guarded run any two commands keep the named spacings. */
  lemma {:induction false} RunApart(spec: Spec, t: Timings, trace: seq<Issue>, i: nat, j: nat)
    requires IsDdr5(spec, t) && spec.Valid() && HasBanks(spec)
    requires ValidTrace(spec, trace) && Guarded(spec, trace) && i < j < |trace|
    ensures Apart(t, spec.counts[RANK], trace[i], trace[j].cmd, trace[j].addr, trace[j].clk)
  {
    hide Ready, IsWired, Populates, Apart, HasBanks, WindowApart;
    WindowShaped(spec, t);
    var before := trace[..j];
    assert before[i] == trace[i];
    assert Ready(spec, before, trace[j].cmd, trace[j].addr, trace[j].clk);
    ReadyIff(spec, t, before, trace[j].cmd, trace[j].addr, trace[j].clk);
  }
}
