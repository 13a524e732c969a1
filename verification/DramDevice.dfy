/**
 * The device object shared by the DDR4 and DDR5 implementations: a clock, the node trees of its
 * channels and a queue of future actions. Ghost fields record the issued commands and the states
 * of the nodes; every node's timing is the one the recorded trace determines.
 */
module DramDevice {
  import opened Wrappers
  import opened DramSpec
  import opened DramTiming
  import opened DramNode
  import opened DramRule

  /** The roots are well-formed channel trees, numbered in order, and `nodes` are all their nodes. */
  ghost predicate Rooted(roots: seq<Node>, spec: Spec, nodes: set<Node>) {
    if roots == [] then nodes == {}
    else
      var root := Last(roots);
      && root.Shape() && root.spec == spec && root.path == [|roots| - 1]
      && root.repr <= nodes
      && Rooted(Init(roots), spec, nodes - root.repr)
  }

  lemma {:induction false} RootedFacts(roots: seq<Node>, spec: Spec, nodes: set<Node>)
    requires Rooted(roots, spec, nodes)
    ensures forall i :: 0 <= i < |roots| ==>
              && roots[i].Shape() && roots[i].spec == spec && roots[i].path == [i]
              && roots[i].repr <= nodes
    ensures forall n :: n in nodes ==>
              n.spec == spec && n.level <= BANK && |n.path| == n.level + 1 && n.path[0] < |roots|
    ensures forall i, n :: 0 <= i < |roots| && n in nodes ==> (n in roots[i].repr <==> n.path[0] == i)
  {
    if roots != [] {
      Last(roots).NodesBelow();
      RootedFacts(Init(roots), spec, nodes - Last(roots).repr);
    }
  }

  class Device {
    const spec: Spec
    const channels: seq<Node>
    ghost const repr: set<Node>

    var clk: int
    var future: seq<FutureAction>
    ghost var trace: seq<Issue>

    ghost predicate Structure() {
      spec.Valid() && |channels| == spec.counts[CHANNEL] && Rooted(channels, spec, repr)
    }

    lemma {:induction false} RootFacts(i: nat)
      requires Structure() && i < |channels|
      ensures channels[i].Shape() && channels[i].spec == spec && channels[i].path == [i] && channels[i].repr <= repr
      ensures forall n :: n in repr ==> n.spec == spec && n.path != [] && (n in channels[i].repr <==> n.path[0] == i)
    {
      RootedFacts(channels, spec, repr);
    }

    ghost predicate Wired(q: seq<FutureAction>) {
      forall a :: a in q ==> spec.ValidAddr(a.addr) && IsRefresh(spec, a.cmd)
    }

    /** The recorded trace is valid and not ahead of the clock, and queued actions are well formed. */
    ghost predicate Recorded(trace: seq<Issue>, future: seq<FutureAction>, clk: int) {
      && ValidTrace(spec, trace) && 0 <= clk
      && (forall i :: 0 <= i < |trace| ==> trace[i].clk <= clk)
      && Wired(future)
    }

    /** Every node's timing is the one the recorded trace determines. */
    ghost predicate TimingOk()
      reads this`trace, repr`ready, repr`hist
    {
      forall n :: n in repr ==> n.Timing() == Replay(n.Table(), n.path, trace)
    }

    ghost predicate Valid()
      reads this, repr
    {
      Structure() && Recorded(trace, future, clk) && TimingOk()
    }

    constructor (spec: Spec)
      requires spec.Valid()
      ensures Valid() && fresh(repr)
      ensures this.spec == spec && clk == 0 && future == [] && trace == []
      ensures forall n :: n in repr ==> n.Bank() == InitState(|n.path| - 1)
      ensures forall n :: n in repr ==>
                && n.rows == {}
                && n.state == if |n.path| == BANK + 1 then Closed
                              else if |n.path| == RANK + 1 then PowerUp else NotApplicable
    {
      var roots, all := CreateNodes(spec);
      this.spec, channels, repr := spec, roots, all;
      clk, future, trace := 0, [], [];
      new;
      RootedFacts(channels, spec, repr);
    }

    static method CreateNodes(spec: Spec) returns (roots: seq<Node>, ghost all: set<Node>)
      requires spec.Valid()
      ensures |roots| == spec.counts[CHANNEL] && Rooted(roots, spec, all)
      ensures fresh(all) && forall n :: n in all ==> n.Initial()
    {
      roots, all := [], {};
      for i := 0 to spec.counts[CHANNEL]
        invariant |roots| == i && Rooted(roots, spec, all)
        invariant fresh(all) && forall n :: n in all ==> n.Initial()
      {
        var root := new Node(spec, CHANNEL, i, [i]);
        assert Init(roots + [root]) == roots;
        assert all + root.repr - root.repr == all;
        roots := roots + [root];
        all := all + root.repr;
      }
    }

    // ---------------------------------------------------------- issue_command

    method IssueCommand(command: nat, addr: seq<int>)
      requires Valid() && command < spec.NumCmds() && spec.ValidAddr(addr)
      modifies this`future, this`trace, repr
      ensures Valid()
      ensures trace == old(trace) + [Issue(command, addr, clk)]
      ensures future == old(future) + Pushed(spec, command, addr, clk)
      ensures forall n :: n in repr ==> n.Bank() == StepState(spec, CHANNEL, n.path, command, addr, old(n.Bank()))
    {
      RecordedAfterIssue(command, addr);
      IssueTiming(command, addr);
      IssueState(command, addr);
      CheckFutureAction(command, addr);
    }

    lemma {:induction false} RecordedAfterIssue(command: nat, addr: seq<int>)
      requires Recorded(trace, future, clk) && command < spec.NumCmds() && spec.ValidAddr(addr)
      ensures Recorded(trace + [Issue(command, addr, clk)], future + Pushed(spec, command, addr, clk), clk)
    {
    }

    method IssueTiming(command: nat, addr: seq<int>)
      requires Structure() && TimingOk() && command < spec.NumCmds() && spec.ValidAddr(addr)
      modifies this`trace, repr`ready, repr`hist
      ensures trace == old(trace) + [Issue(command, addr, clk)]
      ensures TimingOk()
    {
      ghost var iss := Issue(command, addr, clk);
      StepTimings(command, addr);
      trace := trace + [iss];
      assert trace[..|trace| - 1] == old(trace);
    }

    method StepTimings(command: nat, addr: seq<int>)
      requires Structure() && TimingOk() && command < spec.NumCmds() && spec.ValidAddr(addr)
      modifies repr`ready, repr`hist
      ensures forall n :: n in repr ==>
                n.Timing() == StepCell(n.Table(), n.path, Issue(command, addr, clk), old(n.Timing()))
    {
      var root := channels[addr[CHANNEL]];
      RootFacts(addr[CHANNEL]);
      NodesSized();
      root.UpdateTiming(command, addr, clk);
      OtherChannels(addr);
    }

    lemma {:induction false} NodesSized()
      requires TimingOk()
      ensures forall n :: n in repr ==> Sized(n.Table(), n.Timing())
    {
      forall n | n in repr
        ensures Sized(n.Table(), n.Timing())
      {
        ReplayFits(n.Table(), n.path, trace);
      }
    }

    /** Nodes of other channels are missed by a command. */
    lemma {:induction false} OtherChannels(addr: seq<int>)
      requires Structure() && spec.ValidAddr(addr)
      ensures forall n :: n in repr && n !in channels[addr[CHANNEL]].repr ==>
                HitOf(n.path, addr) == Miss && !Agrees(n.path, CHANNEL + 1, addr)
    {
      RootFacts(addr[CHANNEL]);
    }

    method IssueState(command: nat, addr: seq<int>)
      requires Structure() && command < spec.NumCmds() && spec.ValidAddr(addr)
      modifies repr`state, repr`rows
      ensures forall n :: n in repr ==> n.Bank() == StepState(spec, CHANNEL, n.path, command, addr, old(n.Bank()))
    {
      var root := channels[addr[CHANNEL]];
      RootFacts(addr[CHANNEL]);
      root.UpdateStates(command, addr);
      OtherChannels(addr);
    }

    method CheckFutureAction(command: nat, addr: seq<int>)
      requires command < |spec.future|
      modifies this`future
      ensures future == old(future) + Pushed(spec, command, addr, clk)
    {
      match spec.future[command]
      case Future(latency, _) => future := future + [FutureAction(command, addr, clk + latency - 1)];
      case NoFuture =>
    }

    // ---------------------------------------------------------- tick

    method Tick()
      requires Valid()
      modifies this`clk, this`future, repr`state, repr`rows
      ensures Valid()
      ensures clk == old(clk) + 1
      ensures future == Keep(old(future), clk)
      ensures forall n :: n in repr ==> n.Bank() == Complete(spec, n.path, Due(old(future), clk), old(n.Bank()))
    {
      clk := clk + 1;
      KeepWired(future);
      HandleDue();
    }

    lemma {:induction false} KeepWired(q: seq<FutureAction>)
      requires Wired(q)
      ensures Wired(Keep(q, clk))
    {
      if q != [] {
        KeepWired(q[1..]);
      }
    }

    /** Scans the queue from its end, handling and erasing what is due at this clock. */
    method HandleDue()
      requires Structure() && Wired(future)
      modifies this`future, repr`state, repr`rows
      ensures future == Keep(old(future), clk)
      ensures forall n :: n in repr ==> n.Bank() == Complete(spec, n.path, Due(old(future), clk), old(n.Bank()))
    {
      ghost var q := future;
      assert q[|q|..] == [];
      for i := |future| downto 0
        invariant future == q[..i] + Keep(q[i..], clk)
        invariant forall n :: n in repr ==> n.Bank() == Complete(spec, n.path, Due(q[i..], clk), old(n.Bank()))
      {
        QueueStep(q, i);
        if future[i].clk == clk {
          HandleFutureAction(future[i].cmd, future[i].addr);
          future := future[..i] + future[i + 1..];
        }
      }
      assert q[0..] == q;
    }

    lemma {:induction false} QueueStep(q: seq<FutureAction>, i: nat)
      requires i < |q|
      ensures q[..i + 1] + Keep(q[i + 1..], clk) == q[..i] + ([q[i]] + Keep(q[i + 1..], clk))
      ensures Keep(q[i..], clk) == if q[i].clk == clk then Keep(q[i + 1..], clk) else [q[i]] + Keep(q[i + 1..], clk)
      ensures var rest := Due(q[i + 1..], clk);
              if q[i].clk == clk
              then forall path, s :: Complete(spec, path, Due(q[i..], clk), s) ==
                                     CompleteOne(spec, path, q[i], Complete(spec, path, rest, s))
              else Due(q[i..], clk) == rest
    {
      assert q[i..][0] == q[i] && q[i..][1..] == q[i + 1..];
      var rest := Due(q[i + 1..], clk);
      assert Init(rest + [q[i]]) == rest;
    }

    method HandleFutureAction(command: nat, addr: seq<int>)
      requires Structure() && spec.ValidAddr(addr) && IsRefresh(spec, command)
      modifies repr`state, repr`rows
      ensures forall n :: n in repr ==>
                n.Bank() == StepState(spec, CHANNEL, n.path, spec.future[command].endCmd, addr, old(n.Bank()))
    {
      IssueState(spec.future[command].endCmd, addr);
    }

    // ---------------------------------------------------------- check_ready

    /** The incremental check decides the declarative rule over the whole command history. */
    method CheckReady(command: nat, addr: seq<int>) returns (ok: bool)
      requires Valid() && command < spec.NumCmds() && spec.ValidAddr(addr)
      ensures ok <==> Ready(spec, trace, command, addr, clk)
    {
      var root := channels[addr[CHANNEL]];
      RootFacts(addr[CHANNEL]);
      ReadyIffNodes(root, command, addr);
      ok := root.CheckReady(command, addr, clk);
    }

    /** Asking every addressed node of the channel is asking the rule at every addressed path. */
    lemma {:induction false} ReadyIffNodes(root: Node, command: nat, addr: seq<int>)
      requires Valid() && command < spec.NumCmds() && spec.ValidAddr(addr) && root == channels[addr[CHANNEL]]
      ensures forall n :: n in root.repr ==> command < |n.ready|
      ensures (forall n :: n in root.repr ==> n.Agreeable(command, addr, clk)) <==>
              Ready(spec, trace, command, addr, clk)
    {
      hide NodeReady, Allows;
      RootFacts(addr[CHANNEL]);
      NodesAgree(root, command);
      root.PathsValid();
      if forall n :: n in root.repr ==> n.Agreeable(command, addr, clk) {
        forall path | spec.ValidPath(path) && Matches(path, addr) && |path| - 1 <= spec.scopes[command]
          ensures Allows(spec.cons[|path| - 1], path, trace, command, clk)
        {
          var n := root.NodeAt(path);
          assert n.Agreeable(command, addr, clk);
        }
      }
    }

    lemma {:induction false} NodesAgree(root: Node, command: nat)
      requires Structure() && ValidTrace(spec, trace) && 0 <= clk && TimingOk()
      requires command < spec.NumCmds() && root.Shape() && root.spec == spec && root.repr <= repr
      ensures forall n :: n in root.repr ==>
                && n.level + 1 == |n.path| && n.level <= BANK && command < |n.ready|
                && (NodeReady(n.Timing(), command, clk) <==> Allows(spec.cons[n.level], n.path, trace, command, clk))
    {
      root.NodesBelow();
      spec.LevelsOk();
      NodesSized();
      forall n | n in root.repr
        ensures NodeReady(n.Timing(), command, clk) <==> Allows(spec.cons[n.level], n.path, trace, command, clk)
      {
        NodeReadyIffAllows(spec.cons[n.level], n.path, trace, command, clk);
      }
    }
  }
}
