/**
 * The device tree (dram/node.h) and the state actions wired into it (dram/lambdas/action.h).
 * The tree's structure never changes after construction, so it is held in const fields; every
 * operation is specified node by node, as a function of the node's path.
 */
module DramNode {
  import opened Wrappers
  import opened DramSpec
  import opened DramTiming

  datatype State = Opened | Closed | PowerUp | NotApplicable | Refreshing

  /** The state machine of one node: its state and its open rows, the only ones the actions record. */
  datatype BankState = BankState(state: State, rows: set<int>)

  /** Actions a rank or a bank group takes on the banks below it. */
  datatype GroupAction = NoGroupAction | CloseBanks | RefreshBanks | EndRefreshBanks

  /** Actions a bank takes on itself. */
  datatype BankAction = NoBankAction | Activate | Precharge

  /** A command that completes later: `endCmd` runs `latency - 1` cycles after the issue. */
  datatype FutureRule = NoFuture | Future(latency: int, endCmd: nat)

  /** What a device implementation provides, indexed by command. */
  datatype Spec = Spec(
    counts: seq<nat>,
    cons: TimingCons,
    scopes: seq<nat>,
    rankActions: seq<GroupAction>,
    bankGroupActions: seq<GroupAction>,
    bankActions: seq<BankAction>,
    future: seq<FutureRule>)
  {
    function NumCmds(): nat { |scopes| }

    ghost predicate Valid() {
      && |counts| == NUM_LEVELS
      && WellFormed(cons, NumCmds())
      && |rankActions| == |bankGroupActions| == |bankActions| == |future| == NumCmds()
      && (forall c :: 0 <= c < NumCmds() && future[c].Future? ==> future[c].endCmd < NumCmds())
    }

    lemma {:induction false} LevelsOk()
      requires Valid()
      ensures forall l :: 0 <= l < NUM_LEVELS ==> LevelOk(cons[l]) && |cons[l]| == NumCmds()
    {
    }

    predicate HasActions(cmd: nat) {
      cmd < |rankActions| == |bankGroupActions| == |bankActions| == |scopes|
    }

    /** An address vector the device can index its tree with; the channel is never a wildcard. */
    predicate ValidAddr(addr: seq<int>) {
      && |counts| == |addr| == NUM_LEVELS
      && 0 <= addr[CHANNEL] < counts[CHANNEL]
      && forall l :: RANK <= l <= BANK ==> -1 <= addr[l] < counts[l]
    }

    predicate ValidPath(path: seq<nat>) {
      && |counts| == NUM_LEVELS
      && 1 <= |path| <= BANK + 1
      && forall l :: 0 <= l < |path| ==> path[l] < counts[l]
    }
  }

  /** `p` lies at or below `path`. */
  predicate Extends(path: seq<nat>, p: seq<nat>) {
    |path| <= |p| && forall l :: 0 <= l < |path| ==> p[l] == path[l]
  }

  /** `p` is the path of child `i` of the node at `path`. */
  predicate ChildPath(path: seq<nat>, i: nat, p: seq<nat>) {
    |p| == |path| + 1 && Extends(path, p) && p[|path|] == i
  }

  function ChildCount(counts: seq<nat>, level: nat): nat
    requires |counts| == NUM_LEVELS && level <= BANK
  {
    if level + 1 == ROW then 0 else counts[level + 1]
  }

  // ------------------------------------------------------------ state changes, bank by bank

  function ApplyGroup(action: GroupAction, clearRows: bool, s: BankState): BankState {
    match action
    case NoGroupAction => s
    case CloseBanks => BankState(Closed, {})
    case RefreshBanks => s.(state := Refreshing)
    case EndRefreshBanks => if clearRows then BankState(Closed, {}) else s.(state := Closed)
  }

  function ApplyBank(action: BankAction, row: int, s: BankState): BankState {
    match action
    case NoBankAction => s
    case Activate => BankState(Opened, s.rows + {row})
    case Precharge => BankState(Closed, {})
  }

  /** What the node at `level` above the bank at `path` does to that bank. */
  function LevelAction(spec: Spec, level: nat, path: seq<nat>, cmd: nat, addr: seq<int>, s: BankState): BankState {
    if !(|path| == BANK + 1 && |addr| == NUM_LEVELS && spec.HasActions(cmd)) then s
    else if level == RANK then ApplyGroup(spec.rankActions[cmd], false, s)
    else if level == BANKGROUP then
      if path[BANK] == addr[BANK] then ApplyGroup(spec.bankGroupActions[cmd], true, s) else s
    else if level == BANK then ApplyBank(spec.bankActions[cmd], addr[ROW], s)
    else s
  }

  /**
   * The actions met from `level` downwards on the way to the bank, down to the command's scope.
   * A path that is not a bank's is left alone.
   */
  function StepState(spec: Spec, level: nat, path: seq<nat>, cmd: nat, addr: seq<int>, s: BankState): BankState
    decreases BANK + 1 - level
  {
    if level > BANK || |path| != BANK + 1 || !spec.HasActions(cmd) || !Agrees(path, level + 1, addr) then s
    else
      var s' := LevelAction(spec, level, path, cmd, addr, s);
      if level == spec.scopes[cmd] then s' else StepState(spec, level + 1, path, cmd, addr, s')
  }

  class Node {
    const spec: Spec
    const level: nat
    const id: nat
    const children: seq<Node>
    ghost const path: seq<nat>
    ghost const repr: set<Node>

    var ready: seq<int>
    var hist: seq<seq<int>>
    var state: State
    var rows: set<int>

    ghost predicate Shape()
      decreases repr
    {
      && |spec.counts| == NUM_LEVELS
      && level <= BANK && level + 1 == |path| && id == path[level]
      && this in repr
      && |children| == ChildCount(spec.counts, level)
      && (forall i :: 0 <= i < |children| ==> children[i].repr < repr && this !in children[i].repr)
      && (forall i :: 0 <= i < |children| ==>
            && children[i] in children[i].repr
            && children[i].spec == spec
            && ChildPath(path, i, children[i].path)
            && children[i].Shape())
      && (forall n :: n in repr && n != this ==>
            && |path| < |n.path| && n.path[|path|] < |children|
            && n in children[n.path[|path|]].repr)
    }

    ghost function Timing(): Cell
      reads this`ready, this`hist
    {
      Cell(ready, hist)
    }

    ghost function Bank(): BankState
      reads this`state, this`rows
    {
      BankState(state, rows)
    }

    lemma {:induction false} NodesBelow()
      requires Shape()
      ensures forall n :: n in repr ==>
                && n.spec == spec && n.level <= BANK && n.level + 1 == |n.path|
                && Extends(path, n.path)
      decreases repr
    {
      forall i | 0 <= i < |children|
        ensures forall n :: n in children[i].repr ==>
                  && n.spec == spec && n.level <= BANK && n.level + 1 == |n.path|
                  && Extends(children[i].path, n.path)
      {
        children[i].NodesBelow();
      }
    }

    /** Every node of the subtree of a valid path has a valid path. */
    lemma {:induction false} PathsValid()
      requires Shape() && spec.ValidPath(path)
      ensures forall n :: n in repr ==> spec.ValidPath(n.path)
      decreases repr
    {
      forall i | 0 <= i < |children|
        ensures forall n :: n in children[i].repr ==> spec.ValidPath(n.path)
      {
        assert spec.ValidPath(path + [i]);
        children[i].PathsValid();
      }
    }

    /** The subtree holds a node for every valid path below this one. */
    lemma {:induction false} NodeAt(p: seq<nat>) returns (n: Node)
      requires Shape() && spec.ValidPath(p) && Extends(path, p)
      ensures n in repr && n.path == p
      decreases repr
    {
      if p == path {
        n := this;
      } else {
        n := children[p[level + 1]].NodeAt(p);
      }
    }

    constructor (spec: Spec, level: nat, id: nat, ghost path: seq<nat>)
      requires |spec.counts| == NUM_LEVELS == |spec.cons|
      requires level <= BANK && level + 1 == |path| && id == path[level]
      ensures Shape() && fresh(repr)
      ensures this.spec == spec && this.path == path
      ensures forall n :: n in repr ==> n.Initial()
      decreases ROW - level, 1
    {
      var kids, below := CreateChildren(spec, level, path);
      this.spec, this.level, this.id, this.path := spec, level, id, path;
      children := kids;
      repr := {this} + below;
      var cell := InitCell(spec.cons[level]);
      ready, hist := cell.ready, cell.hist;
      state, rows := InitState(level).state, InitState(level).rows;
      new;
      Assembled(below);
    }

    lemma {:induction false} Assembled(below: set<Node>)
      requires |spec.counts| == NUM_LEVELS && level <= BANK && level + 1 == |path| && id == path[level]
      requires |children| == ChildCount(spec.counts, level) && Subtrees(children, below, spec, path)
      requires repr == {this} + below && this !in below
      ensures Shape()
    {
    }

    /** A node as it is right after construction. */
    ghost predicate Initial()
      reads this`ready, this`hist, this`state, this`rows
    {
      level < |spec.cons| && Timing() == InitCell(spec.cons[level]) && Bank() == InitState(level)
    }

    /** The first subtrees of a node at `path`, and all their nodes. */
    static ghost predicate Subtrees(kids: seq<Node>, below: set<Node>, spec: Spec, path: seq<nat>) {
      && |spec.counts| == NUM_LEVELS
      && (forall k :: 0 <= k < |kids| ==>
            && kids[k] in kids[k].repr && kids[k].repr <= below
            && kids[k].spec == spec && ChildPath(path, k, kids[k].path) && kids[k].Shape())
      && (forall n :: n in below ==>
            |path| < |n.path| && n.path[|path|] < |kids| && n in kids[n.path[|path|]].repr)
    }

    static lemma {:induction false} OneMoreSubtree(kids: seq<Node>, below: set<Node>, spec: Spec, path: seq<nat>,
                                                   child: Node)
      requires Subtrees(kids, below, spec, path)
      requires child.Shape() && child.spec == spec && ChildPath(path, |kids|, child.path) && child.repr !! below
      ensures Subtrees(kids + [child], below + child.repr, spec, path)
    {
      child.NodesBelow();
      assert child in child.repr;
    }

    static method CreateChildren(spec: Spec, level: nat, ghost path: seq<nat>)
      returns (kids: seq<Node>, ghost below: set<Node>)
      requires |spec.counts| == NUM_LEVELS == |spec.cons|
      requires level <= BANK && level + 1 == |path|
      ensures |kids| == ChildCount(spec.counts, level) && Subtrees(kids, below, spec, path)
      ensures forall n :: n in below ==> n.Initial()
      ensures fresh(below)
      decreases ROW - level, 0
    {
      kids, below := [], {};
      for i := 0 to ChildCount(spec.counts, level)
        invariant |kids| == i && Subtrees(kids, below, spec, path)
        invariant forall n :: n in below ==> n.Initial()
        invariant fresh(below)
      {
        var child := new Node(spec, level + 1, i, path + [i]);
        OneMoreSubtree(kids, below, spec, path, child);
        kids := kids + [child];
        below := below + child.repr;
      }
    }

    /** The entries of the constraint table for this node's level. */
    function Table(): LevelCons {
      if level < |spec.cons| then spec.cons[level] else []
    }

    ghost predicate AllSized()
      reads repr`ready, repr`hist
    {
      forall n :: n in repr ==> Sized(n.Table(), n.Timing())
    }

    /** The number of the child subtree that holds the node, -1 for this node itself. */
    ghost function Slot(n: Node): int {
      if |path| < |n.path| then n.path[|path|] else -1
    }

    lemma {:induction false} Slots()
      requires Shape()
      ensures forall n :: n in repr ==> -1 <= Slot(n) < |children| && (Slot(n) == -1 <==> n == this)
    {
    }

    lemma {:induction false} Subtree(i: nat)
      requires Shape() && i < |children|
      ensures forall n :: n in children[i].repr <==> n in repr && Slot(n) == i
      ensures children[i].repr < repr && children[i].spec == spec && children[i].Shape()
      ensures children[i].level == level + 1 == |path| && ChildPath(path, i, children[i].path)
    {
      children[i].NodesBelow();
    }

    /** Relaxes this node's ready clocks by the entries of one command. */
    method RelaxEntries(command: nat, sibling: bool, clk: int)
      requires spec.Valid() && level <= BANK && command < spec.NumCmds() && Sized(Table(), Timing())
      modifies this`ready
      ensures var hit := if sibling then Sibling else Target;
              ready == Relax(Table()[command], hit, hist[command], clk, old(ready))
    {
      var entries := spec.cons[level][command];
      ghost var hit := if sibling then Sibling else Target;
      for i := 0 to |entries|
        invariant |ready| == |spec.cons[level]|
        invariant ready == Relax(entries[..i], hit, hist[command], clk, old(ready))
      {
        var t := entries[i];
        assert t in entries && (!t.sibling ==> 1 <= t.window <= |hist[command]|);
        assert entries[..i + 1][..i] == entries[..i];
        if sibling {
          if t.sibling {
            var future := clk + t.val;
            ready := ready[t.cmd := Max(ready[t.cmd], future)];
          }
        } else if !t.sibling {
          var past := hist[command][t.window - 1];
          if past >= 0 {
            var future := past + t.val;
            ready := ready[t.cmd := Max(ready[t.cmd], future)];
          }
        }
      }
      assert entries[..|entries|] == entries;
    }

    method UpdateTiming(command: nat, addr: seq<int>, clk: int)
      requires spec.Valid() && Shape() && AllSized()
      requires command < spec.NumCmds() && |addr| == NUM_LEVELS
      requires Agrees(path, level, addr) && (level == CHANNEL ==> Matches(path, addr))
      modifies repr`ready, repr`hist
      ensures forall n :: n in repr ==>
                n.Timing() == StepCell(n.Table(), n.path, Issue(command, addr, clk), old(n.Timing()))
      decreases repr, 1
    {
      if id != addr[level] && addr[level] != -1 {
        SubtreeMissed(addr);
        RelaxEntries(command, true, clk);
        return;
      }
      UpdateTarget(command, addr, clk);
      UpdateChildren(command, addr, clk);
      Slots();
    }

    /** Records the issue in this node's history and relaxes its clocks. */
    method UpdateTarget(command: nat, addr: seq<int>, clk: int)
      requires spec.Valid() && Shape() && Sized(Table(), Timing())
      requires command < spec.NumCmds() && |addr| == NUM_LEVELS && Matches(path, addr)
      modifies this`ready, this`hist
      ensures Timing() == StepCell(Table(), path, Issue(command, addr, clk), old(Timing()))
    {
      if hist[command] != [] {
        var h := hist[command];
        hist := hist[command := [clk] + h[..|h| - 1]];
      }
      assert hist == old(hist)[command := Push(old(hist)[command], clk)];
      RelaxEntries(command, false, clk);
    }

    method UpdateChildren(command: nat, addr: seq<int>, clk: int)
      requires spec.Valid() && Shape()
      requires forall n :: n in repr && n != this ==> Sized(n.Table(), n.Timing())
      requires command < spec.NumCmds() && |addr| == NUM_LEVELS && Matches(path, addr)
      modifies repr`ready, repr`hist
      ensures forall n :: n in repr ==>
                n.Timing() == if 0 <= Slot(n) < |children|
                              then StepCell(n.Table(), n.path, Issue(command, addr, clk), old(n.Timing()))
                              else old(n.Timing())
      decreases repr, 0
    {
      for i := 0 to |children|
        invariant forall n :: n in repr ==>
                    n.Timing() == if 0 <= Slot(n) < i
                                  then StepCell(n.Table(), n.path, Issue(command, addr, clk), old(n.Timing()))
                                  else old(n.Timing())
      {
        Subtree(i);
        children[i].UpdateTiming(command, addr, clk);
      }
    }

    /** A node that is a sibling of the target shields its whole subtree. */
    lemma {:induction false} SubtreeMissed(addr: seq<int>)
      requires Shape() && |addr| == NUM_LEVELS
      requires Agrees(path, level, addr) && !Matches(path, addr)
      ensures forall n :: n in repr && n != this ==> HitOf(n.path, addr) == Miss
      ensures level > CHANNEL ==> HitOf(path, addr) == Sibling
    {
      NodesBelow();
      forall n | n in repr && n != this
        ensures HitOf(n.path, addr) == Miss
      {
        var l :| 0 <= l < |path| && addr[l] != path[l] && addr[l] != -1;
        assert n.path[l] == path[l] && |n.path| > |path|;
      }
    }

    // ---------------------------------------------------------- check_ready

    /** The node does not object to the command, or is not asked. */
    ghost predicate Agreeable(command: nat, addr: seq<int>, clk: int)
      reads this`ready, this`hist
    {
      Matches(path, addr) && command < |spec.scopes| && level <= spec.scopes[command] ==>
        NodeReady(Timing(), command, clk)
    }

    method CheckReady(command: nat, addr: seq<int>, clk: int) returns (ok: bool)
      requires spec.Valid() && Shape() && command < spec.NumCmds()
      requires forall n :: n in repr ==> command < |n.ready|
      requires spec.ValidAddr(addr) && Matches(path, addr) && level <= spec.scopes[command]
      ensures ok <==> forall n :: n in repr ==> n.Agreeable(command, addr, clk)
      decreases repr, 1
    {
      if ready[command] != -1 && clk < ready[command] {
        assert !Agreeable(command, addr, clk);
        return false;
      }
      assert Agreeable(command, addr, clk);
      Slots();
      if level == spec.scopes[command] || children == [] {
        NodesBelow();
        return true;
      }
      ok := CheckChildren(command, addr, clk);
    }

    method CheckChildren(command: nat, addr: seq<int>, clk: int) returns (ok: bool)
      requires spec.Valid() && Shape() && command < spec.NumCmds() && children != []
      requires forall n :: n in repr ==> command < |n.ready|
      requires spec.ValidAddr(addr) && Matches(path, addr) && level < spec.scopes[command]
      ensures ok <==> forall n :: n in repr && 0 <= Slot(n) ==> n.Agreeable(command, addr, clk)
      decreases repr, 0
    {
      hide Spec.Valid, Agreeable;
      var childId := addr[level + 1];
      if childId == -1 {
        ok := true;
        for i := 0 to |children|
          invariant ok <==> forall n :: n in repr && 0 <= Slot(n) < i ==> n.Agreeable(command, addr, clk)
        {
          Subtree(i);
          if ok {
            ok := children[i].CheckReady(command, addr, clk);
          }
        }
        Slots();
      } else {
        Subtree(childId);
        ok := children[childId].CheckReady(command, addr, clk);
        OthersUnasked(command, addr, clk);
      }
    }

    lemma {:induction false} OthersUnasked(command: nat, addr: seq<int>, clk: int)
      requires Shape() && |addr| == NUM_LEVELS && addr[level + 1] != -1
      ensures forall n :: n in repr && 0 <= Slot(n) != addr[level + 1] ==> n.Agreeable(command, addr, clk)
    {
    }

    // ---------------------------------------------------------- state actions

    /** A bank, asked for its group's target, takes the group's action. */
    method ActIfTarget(action: GroupAction, all: bool, target: int, clearRows: bool)
      requires Shape() && level == BANK
      modifies this`state, this`rows
      ensures Bank() == if all || path[BANK] == target then ApplyGroup(action, clearRows, old(Bank())) else old(Bank())
    {
      if all || id == target {
        var s := ApplyGroup(action, clearRows, BankState(state, rows));
        state, rows := s.state, s.rows;
      }
    }

    /** The banks a bank group's action reaches: all of them, or those whose id is the target. */
    ghost predicate Reached(all: bool, target: int) {
      |path| == BANK + 1 && (all || path[BANK] == target)
    }

    method ActOnBanks(action: GroupAction, all: bool, target: int, clearRows: bool)
      requires Shape() && level == BANKGROUP
      modifies repr`state, repr`rows
      ensures forall n :: n in repr ==>
                n.Bank() ==
                  if n.Reached(all, target) then ApplyGroup(action, clearRows, old(n.Bank())) else old(n.Bank())
    {
      Slots();
      for i := 0 to |children|
        invariant forall n :: n in repr ==>
                    n.Bank() == if 0 <= Slot(n) < i && n.Reached(all, target)
                                then ApplyGroup(action, clearRows, old(n.Bank())) else old(n.Bank())
      {
        Subtree(i);
        children[i].Alone();
        children[i].ActIfTarget(action, all, target, clearRows);
      }
    }

    /** A rank applies an action to all the banks of all its bank groups. */
    method ActOnBankGroups(action: GroupAction)
      requires Shape() && level == RANK
      modifies repr`state, repr`rows
      ensures forall n :: n in repr ==>
                n.Bank() == if n.Reached(true, -1) then ApplyGroup(action, false, old(n.Bank())) else old(n.Bank())
    {
      Slots();
      for i := 0 to |children|
        invariant forall n :: n in repr ==>
                    n.Bank() == if 0 <= Slot(n) < i && n.Reached(true, -1)
                                then ApplyGroup(action, false, old(n.Bank())) else old(n.Bank())
      {
        Subtree(i);
        children[i].ActOnBanks(action, true, -1, false);
      }
    }

    lemma {:induction false} Alone()
      requires Shape() && level == BANK
      ensures forall n :: n in repr <==> n == this
    {
    }

    /** Runs the action of this level, if there is one. */
    method Act(command: nat, addr: seq<int>)
      requires spec.Valid() && Shape() && command < spec.NumCmds() && |addr| == NUM_LEVELS
      modifies repr`state, repr`rows
      ensures forall n :: n in repr ==> n.Bank() == LevelAction(spec, level, n.path, command, addr, old(n.Bank()))
    {
      if level == RANK {
        if spec.rankActions[command] != NoGroupAction {
          ActOnBankGroups(spec.rankActions[command]);
        }
      } else if level == BANKGROUP {
        if spec.bankGroupActions[command] != NoGroupAction {
          ActOnBanks(spec.bankGroupActions[command], false, addr[BANK], true);
        }
      } else if level == BANK {
        Alone();
        var s := ApplyBank(spec.bankActions[command], addr[ROW], BankState(state, rows));
        state, rows := s.state, s.rows;
      }
    }

    method UpdateStates(command: nat, addr: seq<int>)
      requires spec.Valid() && Shape() && command < spec.NumCmds()
      requires spec.ValidAddr(addr) && Matches(path, addr)
      modifies repr`state, repr`rows
      ensures forall n :: n in repr ==> n.Bank() == StepState(spec, level, n.path, command, addr, old(n.Bank()))
      decreases repr, 1
    {
      Act(command, addr);
      PathAgrees(addr);
      if level == spec.scopes[command] || children == [] {
        Slots();
        return;
      }
      if addr[level + 1] == -1 {
        UpdateAllChildStates(command, addr);
      } else {
        UpdateChildState(command, addr);
      }
    }

    lemma {:induction false} PathAgrees(addr: seq<int>)
      requires Shape() && Matches(path, addr)
      ensures forall n :: n in repr ==> Agrees(n.path, level + 1, addr)
    {
      NodesBelow();
    }

    method UpdateAllChildStates(command: nat, addr: seq<int>)
      requires spec.Valid() && Shape() && command < spec.NumCmds() && children != []
      requires spec.ValidAddr(addr) && Matches(path, addr) && addr[level + 1] == -1
      modifies repr`state, repr`rows
      ensures forall n :: n in repr ==> n.Bank() == StepState(spec, level + 1, n.path, command, addr, old(n.Bank()))
      decreases repr, 0
    {
      for i := 0 to |children|
        invariant forall n :: n in repr ==>
                    n.Bank() == if 0 <= Slot(n) < i
                                then StepState(spec, level + 1, n.path, command, addr, old(n.Bank())) else old(n.Bank())
      {
        Subtree(i);
        children[i].UpdateStates(command, addr);
      }
      Slots();
    }

    method UpdateChildState(command: nat, addr: seq<int>)
      requires spec.Valid() && Shape() && command < spec.NumCmds() && children != []
      requires spec.ValidAddr(addr) && Matches(path, addr) && addr[level + 1] != -1
      modifies repr`state, repr`rows
      ensures forall n :: n in repr ==> n.Bank() == StepState(spec, level + 1, n.path, command, addr, old(n.Bank()))
      decreases repr, 0
    {
      hide Spec.Valid, Spec.ValidAddr, Shape, LevelAction, Matches;
      NextIndex(addr);
      var child := children[addr[level + 1]];
      Subtree(addr[level + 1]);
      OthersUnreached(addr);
      child.UpdateStates(command, addr);
    }

    lemma {:induction false} NextIndex(addr: seq<int>)
      requires spec.Valid() && Shape() && children != [] && spec.ValidAddr(addr) && Matches(path, addr)
      requires addr[level + 1] != -1
      ensures level + 1 < |addr| == NUM_LEVELS && 0 <= addr[level + 1] < |children|
      ensures Matches(children[addr[level + 1]].path, addr)
    {
    }

    /** A command passed to one child leaves the banks below the others as they are. */
    lemma {:induction false} OthersUnreached(addr: seq<int>)
      requires Shape() && |addr| == NUM_LEVELS && addr[level + 1] != -1
      ensures forall n :: n in repr && Slot(n) != addr[level + 1] ==>
                n == this || !Agrees(n.path, level + 2, addr)
    {
    }
  }

  function InitState(level: int): BankState {
    BankState(if level == RANK then PowerUp else if level == BANK then Closed else NotApplicable, {})
  }
}
