/** What commands do to banks, and which rows are open after a run (dram/lambdas/action.h). */
module DramBanks {
  import opened Wrappers
  import opened DramSpec
  import opened DramTiming
  import opened DramNode
  import opened DramRule
  import opened DramRun

  /** The address names the bank's rank, or every rank of its channel. */
  predicate AtRank(addr: seq<int>, bank: seq<nat>) {
    && |addr| == NUM_LEVELS && |bank| == BANK + 1
    && addr[CHANNEL] == bank[CHANNEL] && (addr[RANK] == bank[RANK] || addr[RANK] == -1)
  }

  predicate AtGroup(addr: seq<int>, bank: seq<nat>) {
    AtRank(addr, bank) && (addr[BANKGROUP] == bank[BANKGROUP] || addr[BANKGROUP] == -1)
  }

  predicate AtBank(addr: seq<int>, bank: seq<nat>) {
    AtGroup(addr, bank) && (addr[BANK] == bank[BANK] || addr[BANK] == -1)
  }

  /** Same-bank commands go by the bank's number in its group, and take no wildcard there. */
  predicate AtNumber(addr: seq<int>, bank: seq<nat>) {
    AtGroup(addr, bank) && addr[BANK] == bank[BANK]
  }

  lemma {:induction false} AddressedAt(spec: Spec, addr: seq<int>, bank: seq<nat>)
    requires spec.ValidAddr(addr) && |bank| == BANK + 1
    ensures Agrees(bank, RANK + 1, addr) <==> AtRank(addr, bank)
    ensures Agrees(bank, BANKGROUP + 1, addr) <==> AtGroup(addr, bank)
    ensures Matches(bank, addr) <==> AtBank(addr, bank)
  {
  }

  // ------------------------------------------------------------ open rows over runs without refresh

  /** The commands below `plain` are not about refresh; these of them open and close banks. */
  datatype Roles = Roles(plain: nat, act: nat, closeBank: set<nat>, closeNumber: set<nat>, closeRank: set<nat>)

  predicate Opens(r: Roles, bank: seq<nat>, e: Event) {
    e.Cmd? && e.cmd == r.act && AtBank(e.addr, bank)
  }

  predicate Closes(r: Roles, bank: seq<nat>, e: Event) {
    && e.Cmd?
    && (|| (e.cmd in r.closeBank && AtBank(e.addr, bank))
        || (e.cmd in r.closeNumber && AtNumber(e.addr, bank))
        || (e.cmd in r.closeRank && AtRank(e.addr, bank)))
  }

  /** Commands other than those about refresh open and close banks as the roles say, and do nothing else. */
  ghost predicate Plays(spec: Spec, r: Roles, bank: seq<nat>) {
    && r.act !in r.closeBank + r.closeNumber + r.closeRank
    && (forall c: nat :: c < r.plain ==> !IsRefresh(spec, c))
    && forall c: nat, addr, s :: c < r.plain && spec.ValidAddr(addr) ==>
         StepState(spec, CHANNEL, bank, c, addr, s) ==
           if Opens(r, bank, Cmd(c, addr)) then BankState(Opened, s.rows + {addr[ROW]})
           else if Closes(r, bank, Cmd(c, addr)) then BankState(Closed, {})
           else s
  }

  predicate Refreshless(r: Roles, log: seq<Event>) {
    forall i :: 0 <= i < |log| && log[i].Cmd? ==> log[i].cmd < r.plain
  }

  /** An activation of the bank that nothing has closed since. */
  predicate Standing(r: Roles, bank: seq<nat>, log: seq<Event>, i: int) {
    0 <= i < |log| && Opens(r, bank, log[i]) && forall j :: i < j < |log| ==> !Closes(r, bank, log[j])
  }

  lemma {:induction false} StandingStep(r: Roles, bank: seq<nat>, log: seq<Event>, i: int)
    requires log != []
    ensures Standing(r, bank, log, i) <==>
            (i == |log| - 1 && Opens(r, bank, Last(log))) ||
            (Standing(r, bank, Init(log), i) && !Closes(r, bank, Last(log)))
  {
    hide Opens, Closes;
    var n := |log| - 1;
    assert forall j :: 0 <= j < n ==> Init(log)[j] == log[j];
  }

  lemma {:induction false} NothingQueued(spec: Spec, r: Roles, bank: seq<nat>, log: seq<Event>)
    requires Plays(spec, r, bank) && ValidLog(spec, log) && Refreshless(r, log)
    ensures Queue(spec, log) == []
  {
    if log != [] {
      NothingQueued(spec, r, bank, Init(log));
      if Last(log).Cmd? {
        assert !IsRefresh(spec, Last(log).cmd);
      }
    }
  }

  lemma {:induction false} StateStep(spec: Spec, r: Roles, bank: seq<nat>, log: seq<Event>)
    requires log != [] && Plays(spec, r, bank) && ValidLog(spec, log) && Refreshless(r, log)
    ensures StateAfter(spec, bank, log) ==
            var s := StateAfter(spec, bank, Init(log));
            if Opens(r, bank, Last(log)) then BankState(Opened, s.rows + {Last(log).addr[ROW]})
            else if Closes(r, bank, Last(log)) then BankState(Closed, {})
            else s
  {
    hide StepState, AtBank, AtNumber, AtRank;
    if Last(log).Tick? {
      NothingQueued(spec, r, bank, Init(log));
    }
  }

  /** Row `row` of the bank has been activated and nothing has closed the bank since. */
  ghost predicate RowOpen(r: Roles, bank: seq<nat>, log: seq<Event>, row: int) {
    exists i :: Standing(r, bank, log, i) && log[i].addr[ROW] == row
  }

  lemma {:induction false} RowOpenStep(r: Roles, bank: seq<nat>, log: seq<Event>, row: int)
    requires log != []
    ensures RowOpen(r, bank, log, row) <==>
            (Opens(r, bank, Last(log)) && Last(log).addr[ROW] == row) ||
            (!Closes(r, bank, Last(log)) && RowOpen(r, bank, Init(log), row))
  {
    hide Closes;
    var n, before := |log| - 1, Init(log);
    StandingStep(r, bank, log, n);
    if i :| Standing(r, bank, before, i) && before[i].addr[ROW] == row {
      StandingStep(r, bank, log, i);
      assert before[i] == log[i];
    }
    if i :| Standing(r, bank, log, i) && log[i].addr[ROW] == row {
      StandingStep(r, bank, log, i);
      if i < n {
        assert before[i] == log[i];
      }
    }
  }

  lemma {:induction false} RowsStand(spec: Spec, r: Roles, bank: seq<nat>, log: seq<Event>)
    requires Plays(spec, r, bank) && ValidLog(spec, log) && Refreshless(r, log) && |bank| == BANK + 1
    ensures var s := StateAfter(spec, bank, log);
            s.state == if s.rows != {} then Opened else Closed
    ensures forall row :: row in StateAfter(spec, bank, log).rows <==> RowOpen(r, bank, log, row)
  {
    hide Opens, Closes, StepState, Plays, RowOpen, ValidLog, Refreshless;
    if log == [] {
      NoRowOpen(r, bank);
    } else {
      OnlyOpens(spec, r, bank, log);
      RowsStand(spec, r, bank, Init(log));
      StateStep(spec, r, bank, log);
      forall row
        ensures row in StateAfter(spec, bank, log).rows <==> RowOpen(r, bank, log, row)
      {
        RowOpenStep(r, bank, log, row);
      }
    }
  }

  /**
   * Over runs without refresh, a bank is open exactly when some activation of it has not been closed
   * since, and its open rows are the rows of those activations.
   */
  lemma {:induction false} OpenRows(spec: Spec, r: Roles, bank: seq<nat>, log: seq<Event>)
    requires Plays(spec, r, bank) && ValidLog(spec, log) && Refreshless(r, log) && |bank| == BANK + 1
    ensures StateAfter(spec, bank, log).state == Opened || StateAfter(spec, bank, log).state == Closed
    ensures StateAfter(spec, bank, log).state == Opened <==> exists i :: Standing(r, bank, log, i)
    ensures forall row :: row in StateAfter(spec, bank, log).rows <==>
              exists i :: Standing(r, bank, log, i) && log[i].addr[ROW] == row
  {
    hide Closes, StateAfter, Plays;
    RowsStand(spec, r, bank, log);
    var rows := StateAfter(spec, bank, log).rows;
    if i :| Standing(r, bank, log, i) {
      assert RowOpen(r, bank, log, log[i].addr[ROW]);
    }
    if rows != {} {
      var row := Member(rows);
      assert RowOpen(r, bank, log, row);
    }
  }

  lemma {:induction false} NoRowOpen(r: Roles, bank: seq<nat>)
    ensures forall row :: !RowOpen(r, bank, [], row)
  {
  }

  lemma {:induction false} OnlyOpens(spec: Spec, r: Roles, bank: seq<nat>, log: seq<Event>)
    requires Plays(spec, r, bank) && log != []
    ensures ValidLog(spec, log) && Refreshless(r, log) ==> ValidLog(spec, Init(log)) && Refreshless(r, Init(log))
    ensures Opens(r, bank, Last(log)) ==> !Closes(r, bank, Last(log)) && |Last(log).addr| == NUM_LEVELS
  {
  }
}
