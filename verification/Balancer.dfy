/** Placement of new KV pages on nodes (scripts/host_os_scheduler.py, LoadBalancer). */
module Balancer {
  import Arithmetic

  datatype AllocationPolicy = RoundRobin | LeastLoaded | LocalityAware

  /** The nodes a private page may go to: all but the shared one, in order. */
  function Candidates(numNodes: nat, shared: nat): (c: seq<nat>)
    ensures forall i :: 0 <= i < |c| ==> c[i] < numNodes && c[i] != shared
    ensures forall i, j :: 0 <= i < j < |c| ==> c[i] < c[j]
    ensures forall n: nat :: n < numNodes && n != shared ==> n in c
    ensures 2 <= numNodes ==> c != []
  {
    if numNodes == 0 then []
    else if numNodes - 1 == shared then Candidates(numNodes - 1, shared)
    else Candidates(numNodes - 1, shared) + [numNodes - 1]
  }

  /** The candidate that the `k`-th round-robin decision takes. */
  function Turn(c: seq<nat>, k: nat): nat
    requires c != []
  {
    c[k % |c|]
  }

  /** Any |c| consecutive round-robin decisions visit every candidate exactly once. */
  lemma {:induction false} RoundRobinFair(numNodes: nat, shared: nat, k: nat, n: nat)
    requires n < numNodes && n != shared
    ensures var c := Candidates(numNodes, shared);
            c != [] && exists j :: k <= j < k + |c| && Turn(c, j) == n
                                   && forall i :: k <= i < k + |c| && Turn(c, i) == n ==> i == j
  {
    var c := Candidates(numNodes, shared);
    assert n in c;
    var at :| 0 <= at < |c| && c[at] == n;
    var j := NextWith(|c|, k, at);
    assert Turn(c, j) == n;
    forall i | k <= i < k + |c| && Turn(c, i) == n
      ensures i == j
    {
      SameRemainder(|c|, i, j);
    }
  }

  /** Decisions go through the nodes in ascending order, and start again after the last. */
  lemma {:induction false} RoundRobinOrder(numNodes: nat, shared: nat, k: nat, n: nat)
    requires n < numNodes && n != shared
    ensures var c := Candidates(numNodes, shared);
            && c != [] && Turn(c, 0) <= n
            && var last, next := Turn(c, k), Turn(c, k + 1);
            && (next > last && n > last ==> next <= n)
            && (next <= last ==> next == Turn(c, 0) && n <= last)
  {
    var c := Candidates(numNodes, shared);
    assert n in c;
    var at :| 0 <= at < |c| && c[at] == n;
    Arithmetic.NextRemainder(k, |c|);
    Arithmetic.SmallRemainder(0, |c|);
  }

  lemma {:induction false} NextWith(m: nat, k: nat, r: nat) returns (j: nat)
    requires r < m
    ensures k <= j < k + m && j % m == r
  {
    j := k;
    while j % m != r
      invariant k <= j < k + m
      invariant forall i :: k <= i < j ==> i % m != r
      decreases k + m - j
    {
      if j == k + m - 1 {
        Covered(m, k, r);
      }
      j := j + 1;
    }
  }

  lemma {:induction false} Covered(m: nat, k: nat, r: nat)
    requires r < m
    ensures exists i :: k <= i < k + m && i % m == r
  {
    Arithmetic.DivMod(k, m);
    var q := if k % m <= r then k / m else k / m + 1;
    var i := q * m + r;
    assert i == k - k % m + r || i == k - k % m + m + r;
    Arithmetic.DivModUnique(i, m, q, r);
  }

  lemma {:induction false} SameRemainder(m: nat, i: nat, j: nat)
    requires m > 0 && i % m == j % m && i < j + m && j < i + m
    ensures i == j
  {
    Arithmetic.DivMod(i, m);
    Arithmetic.DivMod(j, m);
    if i / m < j / m {
      Arithmetic.MulOrder(i / m, j / m, m);
    } else if j / m < i / m {
      Arithmetic.MulOrder(j / m, i / m, m);
    }
  }

  /** How many pages a request was given on a node. */
  datatype NodeCount = NodeCount(node: nat, pages: nat)

  /** For each request, the nodes it was given pages on, in the order of the first page. */
  type Locality = map<int, seq<NodeCount>>

  function CountsOf(locality: Locality, req: int): seq<NodeCount> {
    if req in locality then locality[req] else []
  }

  /** One more page on a node; a node met for the first time goes to the end. */
  function OneMore(counts: seq<NodeCount>, node: nat): (c: seq<NodeCount>)
    ensures NodesOf(c) == NodesOf(counts) + if node in NodesOf(counts) then [] else [node]
    ensures PagesOn(c, node) == PagesOn(counts, node) + 1
    ensures forall n :: n != node ==> PagesOn(c, n) == PagesOn(counts, n)
  {
    if counts == [] then [NodeCount(node, 1)]
    else if counts[0].node == node then [NodeCount(node, counts[0].pages + 1)] + counts[1..]
    else
      var rest := OneMore(counts[1..], node);
      assert NodesOf(counts) == [counts[0].node] + NodesOf(counts[1..]);
      assert NodesOf([counts[0]] + rest) == [counts[0].node] + NodesOf(rest);
      [counts[0]] + rest
  }

  function NodesOf(counts: seq<NodeCount>): (nodes: seq<nat>)
    ensures |nodes| == |counts| && forall i :: 0 <= i < |counts| ==> nodes[i] == counts[i].node
  {
    seq(|counts|, i requires 0 <= i < |counts| => counts[i].node)
  }

  function PagesOn(counts: seq<NodeCount>, node: nat): nat {
    if counts == [] then 0
    else if counts[0].node == node then counts[0].pages
    else PagesOn(counts[1..], node)
  }

  /** The first candidate of least utilisation. */
  ghost predicate FirstLeast(c: seq<nat>, util: seq<real>, node: nat)
    requires forall i :: 0 <= i < |c| ==> c[i] < |util|
  {
    exists k :: 0 <= k < |c| && c[k] == node
                && (forall i :: 0 <= i < |c| ==> util[c[k]] <= util[c[i]])
                && (forall i :: 0 <= i < k ==> util[c[k]] < util[c[i]])
  }

  /** The first of the nodes that hold most of the request's pages. */
  ghost predicate FirstMost(counts: seq<NodeCount>, node: nat) {
    exists k :: 0 <= k < |counts| && counts[k].node == node
                && (forall i :: 0 <= i < |counts| ==> counts[i].pages <= counts[k].pages)
                && (forall i :: 0 <= i < k ==> counts[i].pages < counts[k].pages)
  }

  lemma {:induction false} FirstLeastUnique(c: seq<nat>, util: seq<real>, m: nat, n: nat)
    requires forall i :: 0 <= i < |c| ==> c[i] < |util|
    requires FirstLeast(c, util, m) && FirstLeast(c, util, n)
    ensures m == n
  {
  }

  lemma {:induction false} FirstMostUnique(counts: seq<NodeCount>, m: nat, n: nat)
    requires FirstMost(counts, m) && FirstMost(counts, n)
    ensures m == n
  {
  }

  /** The constants of a balancer: at least one node besides the shared one. */
  datatype Rule = Rule(numNodes: nat, policy: AllocationPolicy, overloadThreshold: real, sharedNode: nat)
  {
    ghost predicate Ok() {
      sharedNode < numNodes && 2 <= numNodes
    }
  }

  /** What a balancer remembers. */
  datatype Balance = Balance(turn: nat, utilization: seq<real>, locality: Locality)

  predicate Eligible(rule: Rule, utilization: seq<real>, node: nat) {
    && node < rule.numNodes && node < |utilization| && node != rule.sharedNode
    && utilization[node] < rule.overloadThreshold
  }

  /**
   * The node for the next page of a request. A shared page goes to the shared node and a private one
   * elsewhere: to the next in turn, to the first least utilised, or to the first of the nodes that
   * hold most of the request's pages unless that one is overloaded or shared.
   */
  ghost predicate Chooses(rule: Rule, b: Balance, req: int, isShared: bool, node: nat)
    requires rule.Ok() && |b.utilization| == rule.numNodes
  {
    var c, counts := Candidates(rule.numNodes, rule.sharedNode), CountsOf(b.locality, req);
    if isShared then node == rule.sharedNode
    else match rule.policy
      case RoundRobin => node == Turn(c, b.turn)
      case LeastLoaded => FirstLeast(c, b.utilization, node)
      case LocalityAware =>
        || (FirstMost(counts, node) && Eligible(rule, b.utilization, node))
        || (&& FirstLeast(c, b.utilization, node)
            && forall n :: FirstMost(counts, n) ==> !Eligible(rule, b.utilization, n))
  }

  /** The choice is determined, and is the shared node exactly for shared pages. */
  lemma {:induction false} ChoiceDetermined(rule: Rule, b: Balance, req: int, isShared: bool, m: nat, n: nat)
    requires rule.Ok() && |b.utilization| == rule.numNodes
    requires Chooses(rule, b, req, isShared, m) && Chooses(rule, b, req, isShared, n)
    ensures m == n < rule.numNodes && (n == rule.sharedNode <==> isShared)
  {
    hide FirstLeast, FirstMost;
    var c, counts := Candidates(rule.numNodes, rule.sharedNode), CountsOf(b.locality, req);
    if FirstLeast(c, b.utilization, m) {
      LeastIsCandidate(c, b.utilization, m);
      if FirstLeast(c, b.utilization, n) {
        FirstLeastUnique(c, b.utilization, m, n);
      }
    }
    if FirstMost(counts, m) && FirstMost(counts, n) {
      FirstMostUnique(counts, m, n);
    }
  }

  /** The least utilised node is the lowest of those that no other private node is below. */
  lemma {:induction false} LeastChoice(rule: Rule, b: Balance, req: int, node: nat)
    requires rule.Ok() && |b.utilization| == rule.numNodes && rule.policy == LeastLoaded
    ensures Chooses(rule, b, req, false, node) <==>
            && node < rule.numNodes && node != rule.sharedNode
            && forall n :: 0 <= n < rule.numNodes && n != rule.sharedNode ==>
                 if n < node then b.utilization[node] < b.utilization[n] else b.utilization[node] <= b.utilization[n]
  {
    LeastIff(rule.numNodes, rule.sharedNode, b.utilization, node);
  }

  lemma {:induction false} LeastIff(numNodes: nat, shared: nat, util: seq<real>, node: nat)
    requires |util| == numNodes
    ensures FirstLeast(Candidates(numNodes, shared), util, node) <==>
            && node < numNodes && node != shared
            && forall n :: 0 <= n < numNodes && n != shared ==>
                 if n < node then util[node] < util[n] else util[node] <= util[n]
  {
    hide FirstLeast, Candidates;
    var c := Candidates(numNodes, shared);
    if FirstLeast(c, util, node) {
      LeastIsCandidate(c, util, node);
      forall n | 0 <= n < numNodes && n != shared
        ensures if n < node then util[node] < util[n] else util[node] <= util[n]
      {
        assert n in c;
        LeastAgainst(c, util, node, n);
      }
    }
    if && node < numNodes && node != shared
       && forall n :: 0 <= n < numNodes && n != shared ==>
            if n < node then util[node] < util[n] else util[node] <= util[n] {
      assert node in c;
      LeastOf(c, util, node);
    }
  }

  lemma {:induction false} LeastAgainst(c: seq<nat>, util: seq<real>, node: nat, n: nat)
    requires forall i :: 0 <= i < |c| ==> c[i] < |util|
    requires forall i, j :: 0 <= i < j < |c| ==> c[i] < c[j]
    requires FirstLeast(c, util, node) && n in c
    ensures node < |util| && if n < node then util[node] < util[n] else util[node] <= util[n]
  {
  }

  lemma {:induction false} LeastOf(c: seq<nat>, util: seq<real>, node: nat)
    requires forall i :: 0 <= i < |c| ==> c[i] < |util|
    requires forall i, j :: 0 <= i < j < |c| ==> c[i] < c[j]
    requires node in c
    requires forall i :: 0 <= i < |c| ==>
               if c[i] < node then util[node] < util[c[i]] else util[node] <= util[c[i]]
    ensures FirstLeast(c, util, node)
  {
    var k :| 0 <= k < |c| && c[k] == node;
    assert forall i :: 0 <= i < k ==> c[i] < node;
  }

  /**
   * With locality, a request stays where it has most pages, and among equals where it was first, as
   * long as that node is private and below the threshold; otherwise it goes to the least utilised.
   */
  lemma {:induction false} LocalChoice(rule: Rule, b: Balance, req: int, node: nat, k: nat)
    requires rule.Ok() && |b.utilization| == rule.numNodes && rule.policy == LocalityAware
    requires Chooses(rule, b, req, false, node)
    requires k < |CountsOf(b.locality, req)|
    requires forall i :: 0 <= i < |CountsOf(b.locality, req)| ==>
               if i < k then CountsOf(b.locality, req)[i].pages < CountsOf(b.locality, req)[k].pages
               else CountsOf(b.locality, req)[i].pages <= CountsOf(b.locality, req)[k].pages
    ensures var most := CountsOf(b.locality, req)[k].node;
            if most < rule.numNodes && most != rule.sharedNode && b.utilization[most] < rule.overloadThreshold
            then node == most
            else forall n :: 0 <= n < rule.numNodes && n != rule.sharedNode ==>
                   if n < node then b.utilization[node] < b.utilization[n]
                   else b.utilization[node] <= b.utilization[n]
  {
    hide FirstLeast;
    var counts := CountsOf(b.locality, req);
    assert FirstMost(counts, counts[k].node);
    if FirstMost(counts, node) {
      FirstMostUnique(counts, node, counts[k].node);
    }
    LeastIff(rule.numNodes, rule.sharedNode, b.utilization, node);
  }

  /** And so does a request without any page yet. */
  lemma {:induction false} NewcomerChoice(rule: Rule, b: Balance, req: int, node: nat)
    requires rule.Ok() && |b.utilization| == rule.numNodes && rule.policy == LocalityAware
    requires Chooses(rule, b, req, false, node) && CountsOf(b.locality, req) == []
    ensures forall n :: 0 <= n < rule.numNodes && n != rule.sharedNode ==>
              if n < node then b.utilization[node] < b.utilization[n] else b.utilization[node] <= b.utilization[n]
  {
    LeastIff(rule.numNodes, rule.sharedNode, b.utilization, node);
  }

  lemma {:induction false} LeastIsCandidate(c: seq<nat>, util: seq<real>, n: nat)
    requires forall i :: 0 <= i < |c| ==> c[i] < |util|
    requires FirstLeast(c, util, n)
    ensures n in c
  {
  }

  /** The node that is chosen. */
  ghost function Chosen(rule: Rule, b: Balance, req: int, isShared: bool): (node: nat)
    requires rule.Ok() && |b.utilization| == rule.numNodes
    ensures node < rule.numNodes
  {
    if exists n: nat :: Chooses(rule, b, req, isShared, n) then
      var n: nat :| Chooses(rule, b, req, isShared, n);
      ChoiceDetermined(rule, b, req, isShared, n, n);
      n
    else 0
  }

  lemma {:induction false} ChosenIs(rule: Rule, b: Balance, req: int, isShared: bool, node: nat)
    requires rule.Ok() && |b.utilization| == rule.numNodes && Chooses(rule, b, req, isShared, node)
    ensures Chosen(rule, b, req, isShared) == node
  {
    hide Chooses;
    ChoiceDetermined(rule, b, req, isShared, node, Chosen(rule, b, req, isShared));
  }

  /** What choosing a node changes: the turn, if it was a turn. */
  function AfterChoice(rule: Rule, b: Balance, isShared: bool): Balance {
    if rule.policy == RoundRobin && !isShared then b.(turn := b.turn + 1) else b
  }

  /** The page was allocated on the node. */
  function Recorded(b: Balance, req: int, node: nat): Balance {
    b.(locality := b.locality[req := OneMore(CountsOf(b.locality, req), node)])
  }

  class LoadBalancer {
    const numNodes: nat
    const policy: AllocationPolicy
    const overloadThreshold: real
    const sharedNode: nat

    var rrCounter: nat
    var utilization: seq<real>
    var locality: Locality

    ghost predicate Valid()
      reads this
    {
      Settings().Ok() && |utilization| == numNodes
    }

    function Settings(): Rule {
      Rule(numNodes, policy, overloadThreshold, sharedNode)
    }

    function Contents(): Balance
      reads this
    {
      Balance(rrCounter, utilization, locality)
    }

    /** The configuration has the shared node and at least one other. */
    constructor (numNodes: nat, policy: AllocationPolicy, overloadThreshold: real, sharedNode: nat)
      requires sharedNode < numNodes && 2 <= numNodes
      ensures Valid() && Settings() == Rule(numNodes, policy, overloadThreshold, sharedNode)
      ensures rrCounter == 0 && locality == map[] && forall n :: 0 <= n < numNodes ==> utilization[n] == 0.0
    {
      this.numNodes, this.policy := numNodes, policy;
      this.overloadThreshold, this.sharedNode := overloadThreshold, sharedNode;
      rrCounter, locality := 0, map[];
      utilization := seq(numNodes, _ => 0.0);
    }

    method SelectNode(req: int, isShared: bool) returns (node: nat)
      requires Valid()
      modifies this`rrCounter
      ensures Valid() && node < numNodes && (node == sharedNode <==> isShared)
      ensures Chooses(Settings(), old(Contents()), req, isShared, node)
      ensures Contents() == AfterChoice(Settings(), old(Contents()), isShared)
      ensures rrCounter == old(rrCounter) + if policy == RoundRobin && !isShared then 1 else 0
    {
      if isShared {
        return sharedNode;
      }
      match policy
      case RoundRobin => node := TakeTurn();
      case LeastLoaded => node := PickLeastLoaded();
      case LocalityAware => node := PickLocal(req);
    }

    method TakeTurn() returns (node: nat)
      requires Valid()
      modifies this`rrCounter
      ensures node < numNodes && node != sharedNode
      ensures node == Turn(Candidates(numNodes, sharedNode), old(rrCounter)) && rrCounter == old(rrCounter) + 1
    {
      var c := Candidates(numNodes, sharedNode);
      node := c[rrCounter % |c|];
      rrCounter := rrCounter + 1;
    }

    method PickLeastLoaded() returns (node: nat)
      requires Valid()
      ensures node < numNodes && node != sharedNode
      ensures FirstLeast(Candidates(numNodes, sharedNode), utilization, node)
    {
      var c := Candidates(numNodes, sharedNode);
      var k := 0;
      for i := 1 to |c|
        invariant 0 <= k < |c|
        invariant forall j :: 0 <= j < i ==> utilization[c[k]] <= utilization[c[j]]
        invariant forall j :: 0 <= j < k ==> utilization[c[k]] < utilization[c[j]]
      {
        if utilization[c[i]] < utilization[c[k]] {
          k := i;
        }
      }
      node := c[k];
    }

    /** The first node that holds most of the request's pages, as the dictionary lists them. */
    method Preferred(counts: seq<NodeCount>) returns (node: nat)
      requires counts != []
      ensures FirstMost(counts, node)
    {
      var k := 0;
      for i := 1 to |counts|
        invariant 0 <= k < |counts|
        invariant forall j :: 0 <= j < i ==> counts[j].pages <= counts[k].pages
        invariant forall j :: 0 <= j < k ==> counts[j].pages < counts[k].pages
      {
        if counts[k].pages < counts[i].pages {
          k := i;
        }
      }
      node := counts[k].node;
    }

    method PickLocal(req: int) returns (node: nat)
      requires Valid() && policy == LocalityAware
      ensures node < numNodes && node != sharedNode && Chooses(Settings(), Contents(), req, false, node)
    {
      hide FirstLeast;
      var counts := CountsOf(locality, req);
      if counts != [] {
        var preferred := Preferred(counts);
        if Eligible(Settings(), utilization, preferred) {
          return preferred;
        }
        forall n | FirstMost(counts, n)
          ensures n == preferred
        {
          FirstMostUnique(counts, n, preferred);
        }
      }
      node := PickLeastLoaded();
    }

    method UpdateUtilization(node: nat, util: real)
      requires Valid() && node < numNodes
      modifies this`utilization
      ensures Valid() && utilization == old(utilization)[node := util]
    {
      utilization := utilization[node := util];
    }

    method RecordAllocation(req: int, node: nat)
      requires Valid()
      modifies this`locality
      ensures Valid() && Contents() == Recorded(old(Contents()), req, node)
    {
      locality := locality[req := OneMore(CountsOf(locality, req), node)];
    }
  }
}
