/** A device object driven through a whole run, and the log that explains its state. */
module DramExecution {
  import opened Wrappers
  import opened DramTiming
  import opened DramNode
  import opened DramRule
  import opened DramRun
  import opened DramSafety
  import opened DramDevice

  /** Clock, queue, trace and node states are the ones the log determines. */
  ghost predicate Explains(d: Device, log: seq<Event>)
    reads d, d.repr
  {
    && ValidLog(d.spec, log)
    && d.clk == Clock(log) && d.future == Queue(d.spec, log) && d.trace == Trace(log)
    && forall n :: n in d.repr ==> n.Bank() == StateAfter(d.spec, n.path, log)
  }

  /** The log once an event has been offered: a command is dropped if it is not ready now. */
  ghost function Offered(spec: Spec, log: seq<Event>, e: Event): seq<Event>
    requires spec.Valid()
  {
    if e.Cmd? && e.cmd < spec.NumCmds() && !Ready(spec, Trace(log), e.cmd, e.addr, Clock(log)) then log else log + [e]
  }

  /** The events without the commands that were not ready at their turn. */
  ghost function Accepted(spec: Spec, events: seq<Event>): seq<Event>
    requires spec.Valid()
  {
    if events == [] then [] else Offered(spec, Accepted(spec, Init(events)), Last(events))
  }

  /** No tick is ever dropped. */
  lemma {:induction false} AcceptedKeepsTime(spec: Spec, events: seq<Event>)
    requires spec.Valid()
    ensures Clock(Accepted(spec, events)) == Clock(events)
  {
    if events != [] {
      AcceptedKeepsTime(spec, Init(events));
      var prior, e := Accepted(spec, Init(events)), Last(events);
      assert Init(prior + [e]) == prior;
    }
  }

  /** And nothing is dropped exactly when the events as they are obey the rule. */
  lemma {:induction false} AcceptedAllIff(spec: Spec, events: seq<Event>)
    requires spec.Valid() && ValidLog(spec, events)
    ensures ValidTrace(spec, Trace(events))
    ensures Accepted(spec, events) == events <==> Guarded(spec, Trace(events))
    ensures |Accepted(spec, events)| <= |events|
  {
    hide Ready, Spec.ValidAddr;
    TraceFacts(spec, events);
    if events != [] {
      var before, e := Init(events), Last(events);
      AcceptedAllIff(spec, before);
      assert events == before + [e];
      if e.Cmd? {
        GuardedIff(spec, Trace(before), Issue(e.cmd, e.addr, Clock(events)));
      }
      if Accepted(spec, events) == events {
        assert Init(Accepted(spec, events)) == before;
      }
    }
  }

  lemma {:induction false} GuardedIff(spec: Spec, trace: seq<Issue>, iss: Issue)
    requires spec.Valid() && ValidTrace(spec, trace + [iss]) && ValidTrace(spec, trace) && iss.cmd < spec.NumCmds()
    ensures Guarded(spec, trace + [iss]) <==>
            Guarded(spec, trace) && Ready(spec, trace, iss.cmd, iss.addr, iss.clk)
  {
    var longer := trace + [iss];
    forall j | 0 <= j < |longer|
      ensures longer[..j] == if j < |trace| then trace[..j] else trace
    {
    }
    if Guarded(spec, longer) {
      forall j | 0 <= j < |trace|
        ensures Ready(spec, trace[..j], trace[j].cmd, trace[j].addr, trace[j].clk)
      {
        assert Ready(spec, longer[..j], longer[j].cmd, longer[j].addr, longer[j].clk);
      }
      assert Ready(spec, longer[..|trace|], longer[|trace|].cmd, longer[|trace|].addr, longer[|trace|].clk);
    } else if Guarded(spec, trace) && Ready(spec, trace, iss.cmd, iss.addr, iss.clk) {
      forall j | 0 <= j < |longer|
        ensures Ready(spec, longer[..j], longer[j].cmd, longer[j].addr, longer[j].clk)
      {
        assert longer[..j] == if j < |trace| then trace[..j] else trace;
      }
      assert false;
    }
  }

  /**
   * Feeds events to a new device. With `guard`, a command is issued only when `check_ready` accepts
   * it, as a memory controller does; otherwise every command is issued.
   */
  method Run(spec: Spec, events: seq<Event>, guard: bool) returns (d: Device, ghost log: seq<Event>)
    requires spec.Valid() && ValidLog(spec, events)
    ensures d.Valid() && d.spec == spec && Explains(d, log)
    ensures log == if guard then Accepted(spec, events) else events
    ensures guard ==> Guarded(spec, Trace(log))
  {
    d := new Device(spec);
    log := Drive(d, events, guard);
  }

  /** The device has been driven along the log, and when guarded, obeyed the rule all along. */
  ghost predicate Driven(d: Device, log: seq<Event>, guard: bool)
    reads d, d.repr
  {
    d.Valid() && Explains(d, log) && (guard ==> Guarded(d.spec, d.trace))
  }

  method Drive(d: Device, events: seq<Event>, guard: bool) returns (ghost log: seq<Event>)
    requires d.Valid() && Explains(d, []) && ValidLog(d.spec, events)
    modifies d, d.repr
    ensures Driven(d, log, guard)
    ensures log == if guard then Accepted(d.spec, events) else events
  {
    hide *;
    DriveStart(d, events);
    log := [];
    for i := 0 to |events|
      invariant Driven(d, log, guard)
      invariant !guard ==> |log| == i && forall k :: 0 <= k < i ==> log[k] == events[k]
      invariant guard ==> log == Accepted(d.spec, events[..i])
    {
      EventOk(d.spec, events, i);
      AcceptedStep(d.spec, events, i);
      log := DriveEvent(d, events[i], guard, log);
    }
    assert events[..|events|] == events;
  }

  lemma {:induction false} EventOk(spec: Spec, events: seq<Event>, i: nat)
    requires ValidLog(spec, events) && i < |events|
    ensures events[i].Cmd? ==> events[i].cmd < spec.NumCmds() && spec.ValidAddr(events[i].addr)
  {
  }

  lemma {:induction false} AcceptedStep(spec: Spec, events: seq<Event>, i: nat)
    requires spec.Valid() && i < |events|
    ensures Accepted(spec, events[..i + 1]) == Offered(spec, Accepted(spec, events[..i]), events[i])
  {
    assert Init(events[..i + 1]) == events[..i];
  }

  lemma {:induction false} DriveStart(d: Device, events: seq<Event>)
    requires d.Valid() && Explains(d, [])
    ensures Driven(d, [], true) && Driven(d, [], false) && d.spec.Valid() && Accepted(d.spec, events[..0]) == []
  {
  }

  method DriveEvent(d: Device, e: Event, guard: bool, ghost log: seq<Event>) returns (ghost longer: seq<Event>)
    requires Driven(d, log, guard)
    requires e.Cmd? ==> e.cmd < d.spec.NumCmds() && d.spec.ValidAddr(e.addr)
    modifies d, d.repr
    ensures Driven(d, longer, guard)
    ensures longer == if guard then Offered(d.spec, log, e) else log + [e]
  {
    match e
    case Tick => longer := DriveTick(d, log);
    case Cmd(cmd, addr) => longer := DriveCommand(d, cmd, addr, guard, log);
  }

  method DriveTick(d: Device, ghost log: seq<Event>) returns (ghost longer: seq<Event>)
    requires d.Valid() && Explains(d, log)
    modifies d, d.repr
    ensures d.Valid() && Explains(d, longer) && longer == log + [Event.Tick]
    ensures d.trace == old(d.trace)
  {
    longer := log + [Event.Tick];
    assert Init(longer) == log;
    d.Tick();
  }

  method DriveIssue(d: Device, cmd: nat, addr: seq<int>, ghost log: seq<Event>) returns (ghost longer: seq<Event>)
    requires d.Valid() && Explains(d, log) && cmd < d.spec.NumCmds() && d.spec.ValidAddr(addr)
    modifies d, d.repr
    ensures d.Valid() && Explains(d, longer) && longer == log + [Cmd(cmd, addr)]
    ensures d.trace == old(d.trace) + [Issue(cmd, addr, old(d.clk))]
  {
    hide Spec.ValidAddr, StepState, Pushed, Device.Valid;
    longer := log + [Cmd(cmd, addr)];
    assert Init(longer) == log;
    d.IssueCommand(cmd, addr);
  }

  method DriveCommand(d: Device, cmd: nat, addr: seq<int>, guard: bool, ghost log: seq<Event>)
    returns (ghost longer: seq<Event>)
    requires d.Valid() && Explains(d, log) && cmd < d.spec.NumCmds() && d.spec.ValidAddr(addr)
    requires guard ==> Guarded(d.spec, d.trace)
    modifies d, d.repr
    ensures d.Valid() && Explains(d, longer)
    ensures longer == if guard then Offered(d.spec, log, Cmd(cmd, addr)) else log + [Cmd(cmd, addr)]
    ensures guard ==> Guarded(d.spec, d.trace)
  {
    if guard {
      var ok := d.CheckReady(cmd, addr);
      if !ok {
        return log;
      }
    }
    ghost var trace, iss := d.trace, Issue(cmd, addr, d.clk);
    longer := DriveIssue(d, cmd, addr, log);
    if guard {
      GuardedStep(d.spec, trace, iss);
    }
  }

  lemma {:induction false} GuardedStep(spec: Spec, trace: seq<Issue>, iss: Issue)
    requires spec.Valid() && ValidTrace(spec, trace + [iss]) && ValidTrace(spec, trace) && Guarded(spec, trace)
    requires iss.cmd < spec.NumCmds() && Ready(spec, trace, iss.cmd, iss.addr, iss.clk)
    ensures Guarded(spec, trace + [iss])
  {
    GuardedIff(spec, trace, iss);
  }
}
