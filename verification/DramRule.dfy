/**
 * What a device must decide and do, stated on values: when a command is ready, what the queue of
 * future actions keeps, and what completions do to a bank.
 */
module DramRule {
  import opened Wrappers
  import opened DramSpec
  import opened DramTiming
  import opened DramNode

  /** `check_ready`, declaratively: the rule allows the command at every addressed node down to its scope. */
  ghost predicate Ready(spec: Spec, trace: seq<Issue>, cmd: nat, addr: seq<int>, clk: int)
    requires spec.Valid() && cmd < spec.NumCmds()
  {
    forall path :: spec.ValidPath(path) && Matches(path, addr) && |path| - 1 <= spec.scopes[cmd] ==>
      Allows(spec.cons[|path| - 1], path, trace, cmd, clk)
  }

  ghost predicate ValidTrace(spec: Spec, trace: seq<Issue>) {
    && Chronological(trace)
    && forall i :: 0 <= i < |trace| ==> trace[i].cmd < spec.NumCmds() && spec.ValidAddr(trace[i].addr)
  }

  datatype FutureAction = FutureAction(cmd: nat, addr: seq<int>, clk: int)

  /** What stays in the queue when the clock becomes `clk`. */
  function Keep(q: seq<FutureAction>, clk: int): seq<FutureAction> {
    if q == [] then []
    else if q[0].clk == clk then Keep(q[1..], clk)
    else [q[0]] + Keep(q[1..], clk)
  }

  /** What is handled when the clock becomes `clk`, in order: the queue is scanned from its end. */
  function Due(q: seq<FutureAction>, clk: int): seq<FutureAction> {
    if q == [] then []
    else Due(q[1..], clk) + if q[0].clk == clk then [q[0]] else []
  }

  function Pushed(spec: Spec, cmd: nat, addr: seq<int>, clk: int): seq<FutureAction> {
    if cmd < |spec.future| && spec.future[cmd].Future? then
      [FutureAction(cmd, addr, clk + spec.future[cmd].latency - 1)]
    else []
  }

  predicate IsRefresh(spec: Spec, cmd: nat) {
    cmd < |spec.future| && spec.future[cmd].Future?
  }

  /** A bank after the completion of one queued action. */
  function CompleteOne(spec: Spec, path: seq<nat>, a: FutureAction, s: BankState): BankState {
    if IsRefresh(spec, a.cmd) then StepState(spec, CHANNEL, path, spec.future[a.cmd].endCmd, a.addr, s) else s
  }

  /** A bank after the completions of a list of actions, in order. */
  function Complete(spec: Spec, path: seq<nat>, done: seq<FutureAction>, s: BankState): BankState {
    if done == [] then s
    else CompleteOne(spec, path, Last(done), Complete(spec, path, Init(done), s))
  }
}
