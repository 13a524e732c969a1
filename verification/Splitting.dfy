/** How a trace is divided among the nodes of the fabric: the rule both splitters follow. */
module Splitting {
  import opened Wrappers
  import opened Arithmetic
  import opened Trace

  /** A line as it is handed to a node: without time and request. */
  datatype LocalLine = LocalLine(op: string, addr: int, addrVec: string)

  /** A read of shared data on behalf of a private node. */
  datatype CrossRead = CrossRead(src: nat, dst: nat, addr: int, time: int, req: int)

  datatype Role = SharedKV | PrivateKV | OtherRole

  datatype NodeConfig = NodeConfig(id: nat, role: Role)

  ghost predicate ConfigOk(config: seq<NodeConfig>, numNodes: nat) {
    && 0 < |config| == numNodes
    && (forall i :: 0 <= i < |config| ==> config[i].id < numNodes)
    && (forall i, j :: 0 <= i < j < |config| ==> config[i].id != config[j].id)
  }

  /** The nodes of a role, or of any role but that one, in the order of the configuration. */
  function IdsOf(config: seq<NodeConfig>, role: Role, same: bool): (ids: seq<nat>)
    ensures forall n :: n in ids ==>
              exists i :: 0 <= i < |config| && config[i].id == n && (config[i].role == role) == same
  {
    if config == [] then []
    else
      var c := Last(config);
      IdsOf(Init(config), role, same) + if (c.role == role) == same then [c.id] else []
  }

  /**
   * The shared node, the private nodes, whether the low shared range counts as shared, whether a node
   * never reads itself remotely.
   */
  datatype Rule = Rule(shared: nat, privates: seq<nat>, lowIsShared: bool, skipSelf: bool)
  {
    ghost predicate Ok(numNodes: nat) {
      privates != [] && shared < numNodes && forall i :: 0 <= i < |privates| ==> privates[i] < numNodes
    }

    predicate IsShared(l: TraceLine) {
      SharedAddress(l.addr) && (SharedK(l.addr) ==> lowIsShared)
    }

    /** The private node that serves a request. */
    function Home(l: TraceLine): nat
      requires privates != []
    {
      privates[l.Req() % |privates|]
    }

    function Target(l: TraceLine): nat
      requires privates != []
    {
      if IsShared(l) then shared else Home(l)
    }

    predicate Crosses(l: TraceLine)
      requires privates != []
    {
      IsShared(l) && l.StartsWithR() && !(skipSelf && Home(l) == shared)
    }

    function Cross(l: TraceLine): CrossRead
      requires privates != []
    {
      CrossRead(shared, Home(l), l.addr, l.Time(0), l.Req())
    }
  }

  /** Requests are dealt out to the private nodes in turn. */
  lemma {:induction false} SameHomeIff(rule: Rule, l: TraceLine, m: TraceLine)
    requires rule.privates != []
    requires forall i, j :: 0 <= i < j < |rule.privates| ==> rule.privates[i] != rule.privates[j]
    ensures rule.Home(l) == rule.Home(m) <==> (l.Req() - m.Req()) % |rule.privates| == 0
    ensures 0 <= l.Req() < |rule.privates| ==> rule.Home(l) == rule.privates[l.Req()]
  {
    var n := |rule.privates|;
    var a, b := l.Req(), m.Req();
    DivMod(a, n);
    DivMod(b, n);
    if a % n == b % n {
      assert (a / n - b / n) * n == (a / n) * n - (b / n) * n;
      DivModUnique(a - b, n, a / n - b / n, 0);
    }
    if (a - b) % n == 0 {
      DivMod(a - b, n);
      assert ((a - b) / n + b / n) * n == ((a - b) / n) * n + (b / n) * n;
      DivModUnique(a, n, (a - b) / n + b / n, b % n);
    }
    if 0 <= a < n {
      DivModUnique(a, n, 0, a);
    }
  }

  function Local(l: TraceLine): LocalLine {
    LocalLine(l.op, l.addr, l.addrVec)
  }

  /** The lines that a node gets, in the order of the trace. */
  function Entries(rule: Rule, lines: seq<TraceLine>, node: nat): seq<LocalLine>
    requires rule.privates != []
  {
    if lines == [] then []
    else Entries(rule, Init(lines), node)
         + if Last(lines).Kept() && rule.Target(Last(lines)) == node then [Local(Last(lines))] else []
  }

  /** The remote reads of the trace, in order. */
  function Crossings(rule: Rule, lines: seq<TraceLine>): seq<CrossRead>
    requires rule.privates != []
  {
    if lines == [] then []
    else
      var l := Last(lines);
      Crossings(rule, Init(lines)) + if l.Kept() && rule.Crosses(l) then [rule.Cross(l)] else []
  }

  /**
   * Line by line: a line with at least three fields goes to the shared node if its address is in the
   * upper shared range, or in the lower one when that counts, and else to a private node by its
   * request; a shared read that another node asked for is a remote read.
   */
  lemma {:induction false} LineByLine(rule: Rule, lines: seq<TraceLine>, l: TraceLine, node: nat)
    requires rule.privates != []
    ensures var req, time := if l.arity > 4 then l.req else 0, if l.arity > 3 then l.timestamp else 0;
            var shared := 0x4000_0000 <= l.addr < 0x5000_0000 ||
                          (rule.lowIsShared && 0x1000_0000 <= l.addr < 0x2000_0000);
            var home := rule.privates[req % |rule.privates|];
            && Entries(rule, lines + [l], node) == Entries(rule, lines, node) +
               (if l.arity >= 3 && node == (if shared then rule.shared else home)
                then [LocalLine(l.op, l.addr, l.addrVec)] else [])
            && Crossings(rule, lines + [l]) == Crossings(rule, lines) +
               if l.arity >= 3 && shared && l.op != "" && l.op[0] == 'R' && !(rule.skipSelf && home == rule.shared)
               then [CrossRead(rule.shared, home, l.addr, time, req)] else []
  {
    assert Init(lines + [l]) == lines;
  }

  function CountTo(crossed: seq<CrossRead>, node: nat): nat {
    if crossed == [] then 0 else CountTo(Init(crossed), node) + if Last(crossed).dst == node then 1 else 0
  }

  function CountFrom(crossed: seq<CrossRead>, node: nat): nat {
    if crossed == [] then 0 else CountFrom(Init(crossed), node) + if Last(crossed).src == node then 1 else 0
  }

  function SharedReads(rule: Rule, lines: seq<TraceLine>): nat {
    if lines == [] then 0
    else SharedReads(rule, Init(lines))
         + if Last(lines).Kept() && rule.IsShared(Last(lines)) && Last(lines).StartsWithR() then 1 else 0
  }

  /** The valid lines that touch shared data. */
  function SharedLines(rule: Rule, lines: seq<TraceLine>): nat {
    if lines == [] then 0
    else SharedLines(rule, Init(lines)) + if Last(lines).Kept() && rule.IsShared(Last(lines)) then 1 else 0
  }

  /** Unless the shared node is private too, they are the lines it gets. */
  lemma {:induction false} SharedNodeLines(rule: Rule, lines: seq<TraceLine>)
    requires rule.privates != [] && rule.shared !in rule.privates
    ensures SharedLines(rule, lines) == |Entries(rule, lines, rule.shared)|
  {
    if lines != [] {
      SharedNodeLines(rule, Init(lines));
      assert rule.Home(Last(lines)) in rule.privates;
    }
  }

  function LowLines(lines: seq<TraceLine>): nat {
    if lines == [] then 0 else LowLines(Init(lines)) + if Last(lines).Kept() && SharedK(Last(lines).addr) then 1 else 0
  }

  function SumOver(rule: Rule, lines: seq<TraceLine>, n: nat): nat
    requires rule.privates != []
  {
    if n == 0 then 0 else SumOver(rule, lines, n - 1) + |Entries(rule, lines, n - 1)|
  }

  /** Every valid line goes to exactly one node. */
  lemma {:induction false} OneNodeEach(rule: Rule, lines: seq<TraceLine>, numNodes: nat)
    requires rule.Ok(numNodes)
    ensures SumOver(rule, lines, numNodes) == KeptCount(lines)
  {
    if lines == [] {
      SumNothing(rule, numNodes);
    } else {
      OneNodeEach(rule, Init(lines), numNodes);
      SumStep(rule, lines, numNodes);
    }
  }

  lemma {:induction false} SumNothing(rule: Rule, n: nat)
    requires rule.privates != []
    ensures SumOver(rule, [], n) == 0
  {
    if n > 0 {
      SumNothing(rule, n - 1);
    }
  }

  lemma {:induction false} SumStep(rule: Rule, lines: seq<TraceLine>, n: nat)
    requires rule.privates != [] && lines != []
    ensures SumOver(rule, lines, n)
         == SumOver(rule, Init(lines), n) + if Last(lines).Kept() && rule.Target(Last(lines)) < n then 1 else 0
  {
    if n > 0 {
      SumStep(rule, lines, n - 1);
    }
  }

  /** There is one remote read for each shared read, unless the shared node is a private node too. */
  lemma {:induction false} OneCrossingEach(rule: Rule, lines: seq<TraceLine>)
    requires rule.privates != [] && (rule.skipSelf ==> rule.shared !in rule.privates)
    ensures |Crossings(rule, lines)| == SharedReads(rule, lines)
  {
    if lines != [] {
      OneCrossingEach(rule, Init(lines));
    }
  }

  // ------------------------------------------------------------ two rules on one trace

  ghost predicate SameSplit(a: Rule, b: Rule, lines: seq<TraceLine>)
    requires a.privates != [] && b.privates != []
  {
    && (forall n: nat :: Entries(a, lines, n) == Entries(b, lines, n))
    && Crossings(a, lines) == Crossings(b, lines)
  }

  /** Rules that treat every valid line alike split alike. */
  lemma {:induction false} SameTargets(a: Rule, b: Rule, lines: seq<TraceLine>, n: nat)
    requires a.privates != [] && b.privates != []
    requires forall i :: 0 <= i < |lines| && lines[i].Kept() ==>
               && a.Target(lines[i]) == b.Target(lines[i]) && a.Crosses(lines[i]) == b.Crosses(lines[i])
               && a.Cross(lines[i]) == b.Cross(lines[i])
    ensures Entries(a, lines, n) == Entries(b, lines, n) && Crossings(a, lines) == Crossings(b, lines)
  {
    if lines != [] {
      SameTargets(a, b, Init(lines), n);
    }
  }

  /** Not counting the low range as shared takes just its lines away from the shared node. */
  lemma {:induction false} LowLinesMissing(a: Rule, b: Rule, lines: seq<TraceLine>)
    requires a.privates == b.privates != [] && a.shared == b.shared && a.shared !in a.privates && a.lowIsShared &&
               !b.lowIsShared
    ensures |Entries(a, lines, a.shared)| == |Entries(b, lines, a.shared)| + LowLines(lines)
  {
    if lines != [] {
      LowLinesMissing(a, b, Init(lines));
      var l := Last(lines);
      assert a.Home(l) in a.privates;
    }
  }

  lemma {:induction false} NoLowLines(lines: seq<TraceLine>, i: nat)
    requires i < |lines| && LowLines(lines) == 0 && lines[i].Kept()
    ensures !SharedK(lines[i].addr)
  {
    if i < |lines| - 1 {
      NoLowLines(Init(lines), i);
    }
  }

  /**
   * Two rules that may differ in the low range, and in whether a node may read itself, split a trace
   * alike exactly when they do not differ in the low range or the trace has no line there.
   */
  lemma {:induction false} SameSplitIff(a: Rule, b: Rule, lines: seq<TraceLine>)
    requires a.privates == b.privates != [] && a.shared == b.shared && a.shared !in a.privates && a.lowIsShared
    ensures SameSplit(a, b, lines) <==> b.lowIsShared || LowLines(lines) == 0
  {
    if b.lowIsShared || LowLines(lines) == 0 {
      forall i | 0 <= i < |lines| && lines[i].Kept()
        ensures a.Target(lines[i]) == b.Target(lines[i]) && a.Crosses(lines[i]) == b.Crosses(lines[i])
        ensures a.Cross(lines[i]) == b.Cross(lines[i])
      {
        assert a.Home(lines[i]) in a.privates;
        if !b.lowIsShared {
          NoLowLines(lines, i);
        }
      }
      forall n: nat
        ensures Entries(a, lines, n) == Entries(b, lines, n) && Crossings(a, lines) == Crossings(b, lines)
      {
        SameTargets(a, b, lines, n);
      }
      SameTargets(a, b, lines, 0);
    } else {
      LowLinesMissing(a, b, lines);
      assert Entries(a, lines, a.shared) != Entries(b, lines, a.shared);
    }
  }

  // ------------------------------------------------------------ the two rules for one configuration

  /** The first shared node, or node 0. */
  function SharedNode(config: seq<NodeConfig>): nat {
    var ids := IdsOf(config, SharedKV, true);
    if ids == [] then 0 else ids[0]
  }

  /** The stand-alone splitter: every node that is not shared is private. */
  function SplitRule(config: seq<NodeConfig>, numNodes: nat): Rule {
    var ids := IdsOf(config, SharedKV, false);
    var others := if ids == [] && numNodes > 0 then seq(numNodes - 1, i requires 0 <= i => i + 1) else ids;
    Rule(SharedNode(config), others, true, false)
  }

  /**
   * The simulator's splitter: only nodes with the private role are private, and the low range depends
   * on the layout.
   */
  function LoadRule(config: seq<NodeConfig>, layout: bool): Rule {
    var ids := IdsOf(config, PrivateKV, true);
    var others := if ids == [] && config != []
                  then seq(|config| - 1, i requires 0 <= i < |config| - 1 => config[i + 1].id) else ids;
    Rule(SharedNode(config), others, layout, true)
  }

  /** The nodes of a role are listed in the order of the configuration. */
  lemma {:induction false} RolesListed(config: seq<NodeConfig>, c: NodeConfig)
    ensures IdsOf(config + [c], SharedKV, true) ==
            IdsOf(config, SharedKV, true) + if c.role == SharedKV then [c.id] else []
    ensures IdsOf(config + [c], SharedKV, false) ==
            IdsOf(config, SharedKV, false) + if c.role != SharedKV then [c.id] else []
    ensures IdsOf(config + [c], PrivateKV, true) ==
            IdsOf(config, PrivateKV, true) + if c.role == PrivateKV then [c.id] else []
  {
    assert Init(config + [c]) == config;
  }

  /** Shared data is on the first node with the shared role, or on node 0 if there is none. */
  lemma {:induction false} SharedIsFirst(config: seq<NodeConfig>, k: nat)
    requires k <= |config| && forall i :: 0 <= i < k ==> config[i].role != SharedKV
    ensures k < |config| && config[k].role == SharedKV ==> SharedNode(config) == config[k].id
    ensures k == |config| ==> SharedNode(config) == 0
  {
    FirstListed(config, k);
  }

  lemma {:induction false} FirstListed(config: seq<NodeConfig>, k: nat)
    requires k <= |config| && forall i :: 0 <= i < k ==> config[i].role != SharedKV
    ensures var ids := IdsOf(config, SharedKV, true);
            && (k < |config| && config[k].role == SharedKV ==> ids != [] && ids[0] == config[k].id)
            && (k == |config| ==> ids == [])
  {
    if config != [] {
      if k < |config| - 1 {
        FirstListed(Init(config), k);
      } else {
        FirstListed(Init(config), |config| - 1);
      }
    }
  }

  /**
   * The private nodes are those without the shared role for the one splitter and those with the
   * private role for the other; without any, all nodes but the first are.
   */
  lemma {:induction false} PrivatesOf(config: seq<NodeConfig>, numNodes: nat, layout: bool)
    ensures var a, b := IdsOf(config, SharedKV, false), IdsOf(config, PrivateKV, true);
            && (a != [] ==> SplitRule(config, numNodes) == Rule(SharedNode(config), a, true, false))
            && (b != [] ==> LoadRule(config, layout) == Rule(SharedNode(config), b, layout, true))
            && (a == [] && numNodes > 0 ==>
                  var p := SplitRule(config, numNodes).privates;
                  |p| == numNodes - 1 && forall i :: 0 <= i < |p| ==> p[i] == i + 1)
            && (b == [] && config != [] ==>
                  var p := LoadRule(config, layout).privates;
                  |p| == |config| - 1 && forall i :: 0 <= i < |p| ==> p[i] == config[i + 1].id)
  {
  }

  lemma {:induction false} SameRoles(config: seq<NodeConfig>)
    requires forall i :: 0 <= i < |config| ==> config[i].role != OtherRole
    ensures IdsOf(config, SharedKV, false) == IdsOf(config, PrivateKV, true)
  {
    if config != [] {
      SameRoles(Init(config));
    }
  }

  /**
   * With a shared and a private node and no other roles, both splitters produce the same sequences for
   * every node and the same remote reads exactly when the prefix-sharing layout was detected or no
   * valid line lies in the low shared range.
   */
  lemma {:induction false} SplittersAgreeIff(config: seq<NodeConfig>, numNodes: nat, lines: seq<TraceLine>,
                                             layout: bool)
    requires ConfigOk(config, numNodes)
    requires forall i :: 0 <= i < |config| ==> config[i].role != OtherRole
    requires IdsOf(config, SharedKV, true) != [] && IdsOf(config, PrivateKV, true) != []
    ensures SplitRule(config, numNodes).privates != [] && LoadRule(config, layout).privates != []
    ensures SameSplit(SplitRule(config, numNodes), LoadRule(config, layout), lines) <==> layout || LowLines(lines) == 0
  {
    SameRoles(config);
    var a, b := SplitRule(config, numNodes), LoadRule(config, layout);
    assert a.shared in IdsOf(config, SharedKV, true);
    SameSplitIff(a, b, lines);
  }

  /** A shared and a private node, and one line of the low range without any high address. */
  lemma {:induction false} SplittersDisagree()
    ensures var config := [NodeConfig(0, SharedKV), NodeConfig(1, PrivateKV)];
            var lines := [TraceLine(3, "K", 0x1000_0000, "", 0, 0)];
            && !PrefixSharing(lines)
            && SplitRule(config, 2).privates != [] && LoadRule(config, LayoutOf(None, lines)).privates != []
            && !SameSplit(SplitRule(config, 2), LoadRule(config, LayoutOf(None, lines)), lines)
  {
    var config := [NodeConfig(0, SharedKV), NodeConfig(1, PrivateKV)];
    var lines := [TraceLine(3, "K", 0x1000_0000, "", 0, 0)];
    assert Init(config) == [NodeConfig(0, SharedKV)] && Init([NodeConfig(0, SharedKV)]) == [] && Init(lines) == [];
    assert IdsOf([NodeConfig(0, SharedKV)], SharedKV, true) == [0];
    assert IdsOf([NodeConfig(0, SharedKV)], PrivateKV, true) == [];
    assert LowLines(lines) == 1;
    SplittersAgreeIff(config, 2, lines, LayoutOf(None, lines));
  }
}
