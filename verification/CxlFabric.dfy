/** The CXL fabric: nodes, the event loop, and injected attention traffic (scripts/cxl_fabric_simulator.py). */
module CxlFabric {
  import opened Wrappers
  import opened CxlSwitch
  import opened Trace
  import opened Splitting

  datatype EventType = P2PSend | PimSendPartial | PimReduceAttn | OtherEvent

  datatype Event = Event(time: int, kind: EventType, src: nat, dst: nat, req: int, bytes: nat)

  // ------------------------------------------------------------ counting over a queue

  /** A partial send still has its own step and that of its reduce to come. */
  function StepsOf(e: Event): nat {
    if e.kind == PimSendPartial then 2 else 1
  }

  function Steps(q: seq<Event>): nat {
    if q == [] then 0 else StepsOf(q[0]) + Steps(q[1..])
  }

  /** The reduces that events in the queue still owe to a node. */
  function OwesOf(e: Event, node: nat): nat {
    if (e.kind == PimSendPartial || e.kind == PimReduceAttn) && e.dst == node then 1 else 0
  }

  function Owes(q: seq<Event>, node: nat): nat {
    if q == [] then 0 else OwesOf(q[0], node) + Owes(q[1..], node)
  }

  function OfKind(q: seq<Event>, kind: EventType): nat {
    if q == [] then 0 else (if q[0].kind == kind then 1 else 0) + OfKind(q[1..], kind)
  }

  lemma {:induction false} StepsConcat(a: seq<Event>, b: seq<Event>)
    ensures Steps(a + b) == Steps(a) + Steps(b)
  {
    if a == [] {
      assert a + b == b;
    } else {
      assert (a + b)[1..] == a[1..] + b;
      StepsConcat(a[1..], b);
    }
  }

  lemma {:induction false} OwesConcat(a: seq<Event>, b: seq<Event>, node: nat)
    ensures Owes(a + b, node) == Owes(a, node) + Owes(b, node)
  {
    if a == [] {
      assert a + b == b;
    } else {
      assert (a + b)[1..] == a[1..] + b;
      OwesConcat(a[1..], b, node);
    }
  }

  lemma {:induction false} OfKindConcat(a: seq<Event>, b: seq<Event>, kind: EventType)
    ensures OfKind(a + b, kind) == OfKind(a, kind) + OfKind(b, kind)
  {
    if a == [] {
      assert a + b == b;
    } else {
      assert (a + b)[1..] == a[1..] + b;
      OfKindConcat(a[1..], b, kind);
    }
  }

  function Without(q: seq<Event>, i: nat): seq<Event>
    requires i < |q|
  {
    q[..i] + q[i + 1..]
  }

  /** What taking one event out of the queue takes out of the counts. */
  lemma {:induction false} TakenOut(q: seq<Event>, i: nat, node: nat, kind: EventType)
    requires i < |q|
    ensures Steps(q) == Steps(Without(q, i)) + StepsOf(q[i])
    ensures Owes(q, node) == Owes(Without(q, i), node) + OwesOf(q[i], node)
    ensures OfKind(q, kind) == OfKind(Without(q, i), kind) + if q[i].kind == kind then 1 else 0
  {
    var a, b := q[..i], q[i + 1..];
    assert q == a + ([q[i]] + b);
    StepsConcat(a, [q[i]] + b);
    StepsConcat([q[i]], b);
    StepsConcat(a, b);
    OwesConcat(a, [q[i]] + b, node);
    OwesConcat([q[i]], b, node);
    OwesConcat(a, b, node);
    OfKindConcat(a, [q[i]] + b, kind);
    OfKindConcat([q[i]], b, kind);
    OfKindConcat(a, b, kind);
  }

  lemma {:induction false} PutIn(q: seq<Event>, e: Event, node: nat, kind: EventType)
    ensures Steps(q + [e]) == Steps(q) + StepsOf(e)
    ensures Owes(q + [e], node) == Owes(q, node) + OwesOf(e, node)
    ensures OfKind(q + [e], kind) == OfKind(q, kind) + if e.kind == kind then 1 else 0
  {
    StepsConcat(q, [e]);
    OwesConcat(q, [e], node);
    OfKindConcat(q, [e], kind);
  }

  // ------------------------------------------------------------ one step of the event loop

  /** The event at `i` may be popped: none is earlier. Among equals any may come first. */
  predicate Earliest(q: seq<Event>, i: nat) {
    i < |q| && forall j :: 0 <= j < |q| ==> q[i].time <= q[j].time
  }

  lemma {:induction false} EarliestExists(q: seq<Event>)
    requires q != []
    ensures exists i: nat :: Earliest(q, i)
  {
    if |q| == 1 {
      assert Earliest(q, 0);
    } else {
      EarliestExists(q[1..]);
      var i: nat :| Earliest(q[1..], i);
      if q[0].time <= q[1..][i].time {
        assert forall j :: 1 <= j < |q| ==> q[1..][j - 1] == q[j];
        assert Earliest(q, 0);
      } else {
        assert forall j :: 1 <= j < |q| ==> q[1..][j - 1] == q[j];
        assert Earliest(q, i + 1);
      }
    }
  }

  /** Events of attention traffic go to nodes that exist. */
  ghost predicate Addressed(q: seq<Event>, numNodes: nat) {
    forall e :: e in q && (e.kind == PimSendPartial || e.kind == PimReduceAttn) ==> e.dst < numNodes
  }

  ghost predicate NoneBefore(q: seq<Event>, time: int) {
    forall e :: e in q ==> time <= e.time
  }

  datatype Stats = Stats(p2pTransfers: nat, p2pBytes: nat, p2pLatency: int, p2pDelay: int, partialTransfers: nat,
                         partialBytes: nat, partialLatency: int, reduces: nat)

  /** One node of the fabric and its counters. */
  datatype CXLPIMNode = CXLPIMNode(traceEntries: seq<LocalLine>, localAccesses: nat, remoteIn: nat, remoteOut: nat,
                                   sendPartial: nat, reduceAttn: nat)

  /** Each node's reduces, made and still owed, are what they were. */
  ghost predicate Balanced(q0: seq<Event>, n0: seq<CXLPIMNode>, q: seq<Event>, n: seq<CXLPIMNode>) {
    |n| == |n0| && forall k :: 0 <= k < |n| ==>
      && n[k].reduceAttn + Owes(q, k) == n0[k].reduceAttn + Owes(q0, k)
      && n[k] == n0[k].(reduceAttn := n[k].reduceAttn)
  }

  /** Handled events have moved from the queue into the statistics. */
  ghost predicate Accounted(q0: seq<Event>, s0: Stats, q: seq<Event>, s: Stats) {
    && s.p2pTransfers + OfKind(q, P2PSend) == s0.p2pTransfers + OfKind(q0, P2PSend)
    && s.partialTransfers + OfKind(q, PimSendPartial) == s0.partialTransfers + OfKind(q0, PimSendPartial)
    && s.reduces + OfKind(q, PimReduceAttn) + OfKind(q, PimSendPartial)
         == s0.reduces + OfKind(q0, PimReduceAttn) + OfKind(q0, PimSendPartial)
  }

  // ------------------------------------------------------------ what the popped events do

  predicate IsSend(e: Event) {
    e.kind == P2PSend || e.kind == PimSendPartial
  }

  /** The switch after a popped event. */
  function Sent(w: Wiring, routed: Routes, e: Event): (r: Routes)
    requires w.gbps > 0.0 && |routed| == |w.links|
    ensures |r| == |routed|
  {
    if IsSend(e) then RoutedAfter(w, routed, e.dst, e.bytes, e.time) else routed
  }

  /** When a popped event reaches its destination. */
  function ArrivalOf(w: Wiring, routed: Routes, e: Event): int
    requires w.gbps > 0.0 && |routed| == |w.links|
  {
    ArrivalFor(w, routed, e.dst, e.bytes, e.time)
  }

  /** The switch once the events have been popped one after another. */
  function RoutedBy(w: Wiring, routed: Routes, popped: seq<Event>): (r: Routes)
    requires w.gbps > 0.0 && |routed| == |w.links|
    ensures |r| == |routed|
  {
    if popped == [] then routed else Sent(w, RoutedBy(w, routed, Init(popped)), Last(popped))
  }

  /** A partial send becomes a reduce at its destination when it arrives there. */
  function ReducesOf(w: Wiring, routed: Routes, e: Event): seq<Event>
    requires w.gbps > 0.0 && |routed| == |w.links|
  {
    if e.kind == PimSendPartial then [e.(time := ArrivalOf(w, routed, e), kind := PimReduceAttn)] else []
  }

  /** The reduces that the popped events put into the queue, each at the arrival of its send. */
  function ReducesBy(w: Wiring, routed: Routes, popped: seq<Event>): seq<Event>
    requires w.gbps > 0.0 && |routed| == |w.links|
  {
    if popped == [] then []
    else ReducesBy(w, routed, Init(popped)) + ReducesOf(w, RoutedBy(w, routed, Init(popped)), Last(popped))
  }

  /** The statistics after a popped event. */
  function Tallied(w: Wiring, routed: Routes, s: Stats, e: Event): Stats
    requires w.gbps > 0.0 && |routed| == |w.links|
  {
    var latency := ArrivalOf(w, routed, e) - e.time;
    match e.kind
    case P2PSend =>
      s.(p2pTransfers := s.p2pTransfers + 1, p2pBytes := s.p2pBytes + e.bytes, p2pLatency := s.p2pLatency + latency,
         p2pDelay := s.p2pDelay + DelayFor(w, routed, e.dst, e.time))
    case PimSendPartial =>
      s.(partialTransfers := s.partialTransfers + 1, partialBytes := s.partialBytes + e.bytes,
         partialLatency := s.partialLatency + latency)
    case PimReduceAttn => s.(reduces := s.reduces + 1)
    case OtherEvent => s
  }

  function TalliedBy(w: Wiring, routed: Routes, s: Stats, popped: seq<Event>): Stats
    requires w.gbps > 0.0 && |routed| == |w.links|
  {
    if popped == [] then s
    else Tallied(w, RoutedBy(w, routed, Init(popped)), TalliedBy(w, routed, s, Init(popped)), Last(popped))
  }

  /** One more popped event. */
  lemma {:induction false} PoppedOne(w: Wiring, routed: Routes, s: Stats, popped: seq<Event>, e: Event)
    requires w.gbps > 0.0 && |routed| == |w.links|
    ensures var r := RoutedBy(w, routed, popped);
            && RoutedBy(w, routed, popped + [e]) == Sent(w, r, e)
            && ReducesBy(w, routed, popped + [e]) == ReducesBy(w, routed, popped) + ReducesOf(w, r, e)
            && TalliedBy(w, routed, s, popped + [e]) == Tallied(w, r, TalliedBy(w, routed, s, popped), e)
  {
    assert Init(popped + [e]) == popped;
  }

  /**
   * The events popped so far and those in the queue are those of the start and the reduces of the
   * partial sends popped, and the switch and the statistics are what the popped events made them.
   */
  ghost predicate Replayed(w: Wiring, q0: seq<Event>, routed0: Routes, s0: Stats, popped: seq<Event>,
                           q: seq<Event>, routed: Routes, s: Stats)
    requires w.gbps > 0.0 && |routed0| == |w.links|
  {
    && multiset(popped) + multiset(q) == multiset(q0) + multiset(ReducesBy(w, routed0, popped))
    && routed == RoutedBy(w, routed0, popped) && s == TalliedBy(w, routed0, s0, popped)
  }

  lemma {:induction false} NothingReplayed(w: Wiring, q: seq<Event>, routed: Routes, s: Stats)
    requires w.gbps > 0.0 && |routed| == |w.links|
    ensures Replayed(w, q, routed, s, [], q, routed, s)
  {
  }

  lemma {:induction false} AllReplayed(w: Wiring, q0: seq<Event>, routed0: Routes, s0: Stats, popped: seq<Event>,
                                       routed: Routes, s: Stats)
    requires w.gbps > 0.0 && |routed0| == |w.links| && Replayed(w, q0, routed0, s0, popped, [], routed, s)
    ensures multiset(popped) == multiset(q0) + multiset(ReducesBy(w, routed0, popped))
    ensures routed == RoutedBy(w, routed0, popped) && s == TalliedBy(w, routed0, s0, popped)
  {
  }

  lemma {:induction false} MovedOver(popped: multiset<Event>, q: multiset<Event>, q0: multiset<Event>,
                                     made: multiset<Event>, rest: multiset<Event>, e: Event, more: multiset<Event>)
    requires popped + q == q0 + made && q == rest + multiset{e}
    ensures (popped + multiset{e}) + (rest + more) == q0 + (made + more)
  {
    var a, b := (popped + multiset{e}) + (rest + more), q0 + (made + more);
    forall x
      ensures a[x] == b[x]
    {
      assert (popped + q)[x] == (q0 + made)[x];
    }
    assert a == b;
  }

  lemma {:induction false} ReplayedStep(w: Wiring, q0: seq<Event>, routed0: Routes, s0: Stats, popped: seq<Event>,
                                        q: seq<Event>, routed: Routes, s: Stats, i: nat)
    requires w.gbps > 0.0 && |routed0| == |w.links| && i < |q|
    requires Replayed(w, q0, routed0, s0, popped, q, routed, s)
    ensures |routed| == |w.links|
    ensures Replayed(w, q0, routed0, s0, popped + [q[i]], Without(q, i) + ReducesOf(w, routed, q[i]),
                     Sent(w, routed, q[i]), Tallied(w, routed, s, q[i]))
  {
    hide RoutedBy, ReducesBy, TalliedBy, Sent, Tallied, ReducesOf;
    var e, rest, made, reduces := q[i], Without(q, i), ReducesBy(w, routed0, popped), ReducesOf(w, routed, q[i]);
    PoppedOne(w, routed0, s0, popped, e);
    assert multiset(q) == multiset(rest) + multiset{e} by {
      assert q == q[..i] + [e] + q[i + 1..];
    }
    assert multiset(popped + [e]) == multiset(popped) + multiset{e};
    assert multiset(rest + reduces) == multiset(rest) + multiset(reduces);
    assert multiset(made + reduces) == multiset(made) + multiset(reduces);
    MovedOver(multiset(popped), multiset(q), multiset(q0), multiset(made), multiset(rest), e, multiset(reduces));
  }

  /** The state after a popped event has been handled. */
  ghost predicate Handled(w: Wiring, routed: Routes, e: Event, q: seq<Event>, n: seq<CXLPIMNode>, s: Stats,
                          q': seq<Event>, n': seq<CXLPIMNode>, s': Stats)
    requires w.gbps > 0.0 && |routed| == |w.links|
  {
    && q' == q + ReducesOf(w, routed, e) && s' == Tallied(w, routed, s, e)
    && if e.kind == PimReduceAttn then
         e.dst < |n| && n' == n[e.dst := n[e.dst].(reduceAttn := n[e.dst].reduceAttn + 1)]
       else n' == n
  }

  /** One turn of the loop keeps the balances and uses up one step. */
  lemma {:induction false} TurnKeeps(q0: seq<Event>, n0: seq<CXLPIMNode>, s0: Stats, q: seq<Event>,
                                     n: seq<CXLPIMNode>, s: Stats, i: nat, w: Wiring, routed: Routes,
                                     q': seq<Event>, n': seq<CXLPIMNode>, s': Stats)
    requires Balanced(q0, n0, q, n) && Accounted(q0, s0, q, s) && w.gbps > 0.0 && |routed| == |w.links|
    requires i < |q| && Handled(w, routed, q[i], Without(q, i), n, s, q', n', s')
    ensures Balanced(q0, n0, q', n') && Accounted(q0, s0, q', s')
    ensures Steps(q') + 1 == Steps(q)
  {
    hide ArrivalFor, DelayFor;
    var e, rest := q[i], Without(q, i);
    TakenOut(q, i, 0, P2PSend);
    TakenOut(q, i, 0, PimSendPartial);
    TakenOut(q, i, 0, PimReduceAttn);
    if e.kind == PimSendPartial {
      var r := q'[|rest|];
      PutIn(rest, r, 0, P2PSend);
      PutIn(rest, r, 0, PimSendPartial);
      PutIn(rest, r, 0, PimReduceAttn);
    } else {
      assert q' == rest;
    }
    forall k | 0 <= k < |n|
      ensures n'[k].reduceAttn + Owes(q', k) == n[k].reduceAttn + Owes(q, k)
    {
      TakenOut(q, i, k, P2PSend);
      if e.kind == PimSendPartial {
        PutIn(rest, q'[|rest|], k, P2PSend);
      }
    }
  }

  /** Time does not run backwards: what is left, and what is added, is no earlier than what was popped. */
  lemma {:induction false} TurnTime(q: seq<Event>, i: nat, w: Wiring, routed: Routes, q': seq<Event>, numNodes: nat)
    requires w.gbps > 0.0 && |routed| == |w.links|
    requires Earliest(q, i) && q' == Without(q, i) + ReducesOf(w, routed, q[i]) && Addressed(q, numNodes)
    ensures NoneBefore(q', q[i].time) && Addressed(q', numNodes)
  {
    hide ArrivalFor, DelayFor;
    ArrivalLater(w, routed, q[i].dst, q[i].bytes, q[i].time);
    forall e | e in q'
      ensures q[i].time <= e.time
      ensures (e.kind == PimSendPartial || e.kind == PimReduceAttn) ==> e.dst < numNodes
    {
      if e in Without(q, i) {
        var k :| 0 <= k < |Without(q, i)| && Without(q, i)[k] == e;
        assert e == if k < i then q[k] else q[k + 1];
      }
    }
  }

  /** A switch with one port for each node. */
  method Connect(numNodes: nat, baseLatency: nat, gbps: real) returns (s: CXLSwitchNode)
    requires gbps > 0.0
    ensures fresh(s) && s.Valid() && s.baseLatency == baseLatency && s.gbps == gbps
    ensures |s.ports| == numNodes && forall k :: 0 <= k < numNodes ==> s.ports[k].id == k && s.ports[k].node == k
    ensures s.Wires() == Wiring(baseLatency, gbps, seq(numNodes, k => k)) && s.routed == seq(numNodes, _ => [])
  {
    s := new CXLSwitchNode(baseLatency, gbps);
    for i := 0 to numNodes
      invariant fresh(s) && s.Valid() && s.baseLatency == baseLatency && s.gbps == gbps
      invariant |s.ports| == i && forall k :: 0 <= k < i ==> s.ports[k].id == k && s.ports[k].node == k
      invariant s.routed == seq(i, _ => [])
    {
      s.AddPort(i, i);
    }
  }

  /** `steps` rounds in which every node has sent a partial sum to every other are in the queue. */
  ghost predicate Injected(q0: seq<Event>, n0: seq<CXLPIMNode>, q: seq<Event>, n: seq<CXLPIMNode>, numNodes: nat,
                           steps: nat) {
    && |n0| == |n| == numNodes
    && (forall k :: 0 <= k < numNodes ==>
          && Owes(q, k) == Owes(q0, k) + steps * (numNodes - 1)
          && n[k] == n0[k].(sendPartial := n0[k].sendPartial + steps * (numNodes - 1)))
    && OfKind(q, PimSendPartial) == OfKind(q0, PimSendPartial) + steps * (numNodes * (numNodes - 1))
    && OthersKept(q0, q)
  }

  /** No event other than partial sends has been added or removed. */
  ghost predicate OthersKept(q0: seq<Event>, q: seq<Event>) {
    OfKind(q, P2PSend) == OfKind(q0, P2PSend) && OfKind(q, PimReduceAttn) == OfKind(q0, PimReduceAttn)
  }

  /** One node has sent a partial sum to every other. */
  ghost predicate SentBy(q: seq<Event>, n: seq<CXLPIMNode>, q': seq<Event>, n': seq<CXLPIMNode>, numNodes: nat,
                         src: nat) {
    && |n| == |n'| == numNodes
    && (forall k :: 0 <= k < numNodes ==>
          && Owes(q', k) == Owes(q, k) + (if k == src then 0 else 1)
          && n'[k] == n[k].(sendPartial := n[k].sendPartial + if k == src then numNodes - 1 else 0))
    && OfKind(q', PimSendPartial) == OfKind(q, PimSendPartial) + numNodes - 1
    && OthersKept(q, q')
  }

  /** It has sent one to those of the first `dsts` nodes that are not itself. */
  ghost predicate SentTo(q0: seq<Event>, n0: seq<CXLPIMNode>, q: seq<Event>, n: seq<CXLPIMNode>, numNodes: nat,
                         src: nat, dsts: nat) {
    var sent := dsts - if src < dsts then 1 else 0;
    && |n0| == |n| == numNodes && 0 <= sent
    && (forall k :: 0 <= k < numNodes ==>
          && Owes(q, k) == Owes(q0, k) + (if k < dsts && k != src then 1 else 0)
          && n[k] == n0[k].(sendPartial := n0[k].sendPartial + if k == src then sent else 0))
    && OfKind(q, PimSendPartial) == OfKind(q0, PimSendPartial) + sent
    && OthersKept(q0, q)
  }

  lemma {:induction false} SentToNone(q: seq<Event>, n: seq<CXLPIMNode>, numNodes: nat, src: nat)
    requires |n| == numNodes
    ensures SentTo(q, n, q, n, numNodes, src, 0)
  {
    hide Owes, OfKind;
  }

  lemma {:induction false} SentToNext(q0: seq<Event>, n0: seq<CXLPIMNode>, q: seq<Event>, n: seq<CXLPIMNode>,
                                      numNodes: nat, src: nat, dst: nat, e: Event)
    requires src < numNodes && dst < numNodes && SentTo(q0, n0, q, n, numNodes, src, dst)
    requires e.kind == PimSendPartial && e.dst == dst
    ensures |n| == numNodes
    ensures if src == dst then SentTo(q0, n0, q, n, numNodes, src, dst + 1)
            else SentTo(q0, n0, q + [e], n[src := n[src].(sendPartial := n[src].sendPartial + 1)], numNodes, src,
                        dst + 1)
  {
    hide Owes, OfKind;
    PutInAll(q, e, numNodes);
  }

  lemma {:induction false} SentToAll(q0: seq<Event>, n0: seq<CXLPIMNode>, q: seq<Event>, n: seq<CXLPIMNode>,
                                     numNodes: nat, src: nat)
    requires src < numNodes && SentTo(q0, n0, q, n, numNodes, src, numNodes)
    ensures SentBy(q0, n0, q, n, numNodes, src)
  {
    hide Owes, OfKind, OthersKept;
  }

  /** The first `srcs` nodes have. */
  ghost predicate SentBySome(q0: seq<Event>, n0: seq<CXLPIMNode>, q: seq<Event>, n: seq<CXLPIMNode>, numNodes: nat,
                             srcs: nat) {
    && |n0| == |n| == numNodes
    && (forall k :: 0 <= k < numNodes ==>
          && Owes(q, k) == Owes(q0, k) + srcs - (if k < srcs then 1 else 0)
          && n[k] == n0[k].(sendPartial := n0[k].sendPartial + if k < srcs then numNodes - 1 else 0))
    && OfKind(q, PimSendPartial) == OfKind(q0, PimSendPartial) + srcs * (numNodes - 1)
    && OthersKept(q0, q)
  }

  lemma {:induction false} SentByNone(q: seq<Event>, n: seq<CXLPIMNode>, numNodes: nat)
    requires |n| == numNodes
    ensures SentBySome(q, n, q, n, numNodes, 0)
  {
  }

  lemma {:induction false} SentByOneMore(q0: seq<Event>, n0: seq<CXLPIMNode>, q: seq<Event>, n: seq<CXLPIMNode>,
                                         q': seq<Event>, n': seq<CXLPIMNode>, numNodes: nat, src: nat)
    requires src < numNodes && SentBySome(q0, n0, q, n, numNodes, src) && SentBy(q, n, q', n', numNodes, src)
    ensures SentBySome(q0, n0, q', n', numNodes, src + 1)
  {
    hide Owes, OfKind;
    assert (src + 1) * (numNodes - 1) == src * (numNodes - 1) + (numNodes - 1);
  }

  lemma {:induction false} SentByAll(q0: seq<Event>, n0: seq<CXLPIMNode>, q: seq<Event>, n: seq<CXLPIMNode>,
                                     numNodes: nat)
    requires SentBySome(q0, n0, q, n, numNodes, numNodes)
    ensures Injected(q0, n0, q, n, numNodes, 1)
  {
    hide Owes, OfKind;
  }

  lemma {:induction false} NothingInjected(q: seq<Event>, n: seq<CXLPIMNode>, numNodes: nat)
    requires |n| == numNodes
    ensures Injected(q, n, q, n, numNodes, 0)
  {
  }

  lemma {:induction false} InjectedStep(q0: seq<Event>, n0: seq<CXLPIMNode>, q: seq<Event>, n: seq<CXLPIMNode>,
                                        q': seq<Event>, n': seq<CXLPIMNode>, numNodes: nat, steps: nat)
    requires Injected(q0, n0, q, n, numNodes, steps) && Injected(q, n, q', n', numNodes, 1)
    ensures Injected(q0, n0, q', n', numNodes, steps + 1)
  {
    hide Owes, OfKind;
    assert (steps + 1) * (numNodes - 1) == steps * (numNodes - 1) + (numNodes - 1);
    assert (steps + 1) * (numNodes * (numNodes - 1)) == steps * (numNodes * (numNodes - 1)) + numNodes * (numNodes - 1);
  }

  lemma {:induction false} PutInAll(q: seq<Event>, e: Event, numNodes: nat)
    ensures forall n :: 0 <= n < numNodes ==> Owes(q + [e], n) == Owes(q, n) + OwesOf(e, n)
    ensures e.kind == PimSendPartial ==>
              OfKind(q + [e], PimSendPartial) == OfKind(q, PimSendPartial) + 1 && OthersKept(q, q + [e])
  {
    PutIn(q, e, 0, PimSendPartial);
    PutIn(q, e, 0, P2PSend);
    PutIn(q, e, 0, PimReduceAttn);
    forall n | 0 <= n < numNodes
      ensures Owes(q + [e], n) == Owes(q, n) + OwesOf(e, n)
    {
      PutIn(q, e, n, PimSendPartial);
    }
  }

  /** A node after one line. */
  function DeliveredNode(rule: Rule, l: TraceLine, node: nat, n: CXLPIMNode): CXLPIMNode
    requires rule.privates != []
  {
    var m := if rule.Target(l) == node
             then n.(traceEntries := n.traceEntries + [Local(l)], localAccesses := n.localAccesses + 1) else n;
    var o := if rule.Crosses(l) && rule.shared == node then m.(remoteOut := m.remoteOut + 1) else m;
    if rule.Crosses(l) && rule.Home(l) == node then o.(remoteIn := o.remoteIn + 1) else o
  }

  function Transfer(c: CrossRead): Event {
    Event(c.time, P2PSend, c.src, c.dst, c.req, 64)
  }

  ghost predicate Delivered(rule: Rule, l: TraceLine, n: seq<CXLPIMNode>, q: seq<Event>, n': seq<CXLPIMNode>,
                            q': seq<Event>)
    requires rule.privates != []
  {
    && |n'| == |n| && (forall k :: 0 <= k < |n| ==> n'[k] == DeliveredNode(rule, l, k, n[k]))
    && q' == q + if rule.Crosses(l) then [Transfer(rule.Cross(l))] else []
  }

  function Transfers(crossed: seq<CrossRead>): seq<Event> {
    seq(|crossed|, i requires 0 <= i < |crossed| => Transfer(crossed[i]))
  }

  /** Nodes and queue once the lines have been split by the rule. */
  ghost predicate Loaded(rule: Rule, lines: seq<TraceLine>, n0: seq<CXLPIMNode>, q0: seq<Event>, n: seq<CXLPIMNode>,
                         q: seq<Event>)
    requires rule.privates != []
  {
    var crossed := Crossings(rule, lines);
    && |n| == |n0| && q == q0 + Transfers(crossed)
    && forall k :: 0 <= k < |n| ==>
         var entries := Entries(rule, lines, k);
         n[k] == n0[k].(traceEntries := n0[k].traceEntries + entries, localAccesses := n0[k].localAccesses + |entries|,
                        remoteIn := n0[k].remoteIn + CountTo(crossed, k),
                        remoteOut := n0[k].remoteOut + CountFrom(crossed, k))
  }

  lemma {:induction false} StartLoaded(rule: Rule, n: seq<CXLPIMNode>, q: seq<Event>)
    requires rule.privates != []
    ensures forall lines: seq<TraceLine> :: Loaded(rule, lines[..0], n, q, n, q)
  {
    forall lines: seq<TraceLine>
      ensures Loaded(rule, lines[..0], n, q, n, q)
    {
      assert lines[..0] == [];
      assert Transfers([]) == [];
    }
  }

  lemma {:induction false} LoadedStep(rule: Rule, lines: seq<TraceLine>, i: nat, n0: seq<CXLPIMNode>, q0: seq<Event>,
                                      n: seq<CXLPIMNode>, q: seq<Event>, n': seq<CXLPIMNode>, q': seq<Event>)
    requires rule.privates != [] && i < |lines| && Loaded(rule, lines[..i], n0, q0, n, q)
    requires if lines[i].Kept() then Delivered(rule, lines[i], n, q, n', q') else n' == n && q' == q
    ensures Loaded(rule, lines[..i + 1], n0, q0, n', q')
  {
    var l, longer := lines[i], lines[..i + 1];
    assert Init(longer) == lines[..i] && Last(longer) == l;
    var before, after := Crossings(rule, lines[..i]), Crossings(rule, longer);
    if l.Kept() && rule.Crosses(l) {
      CrossedOnce(before, rule.Cross(l));
    } else {
      assert after == before;
    }
  }

  lemma {:induction false} CrossedOnce(before: seq<CrossRead>, c: CrossRead)
    ensures Transfers(before + [c]) == Transfers(before) + [Transfer(c)]
    ensures forall k :: CountTo(before + [c], k) == CountTo(before, k) + if c.dst == k then 1 else 0
    ensures forall k :: CountFrom(before + [c], k) == CountFrom(before, k) + if c.src == k then 1 else 0
  {
    assert Init(before + [c]) == before;
  }

  /** The partial sums one node sends to those of the first `dsts` nodes that are not itself. */
  function SendsFrom(src: nat, time: int, bytes: nat, dsts: nat): seq<Event> {
    if dsts == 0 then []
    else SendsFrom(src, time, bytes, dsts - 1)
         + if dsts - 1 == src then [] else [Event(time, PimSendPartial, src, dsts - 1, -1, bytes)]
  }

  /** One decode step, by the first `srcs` of `n` nodes. */
  function StepSends(time: int, bytes: nat, n: nat, srcs: nat): seq<Event> {
    if srcs == 0 then [] else StepSends(time, bytes, n, srcs - 1) + SendsFrom(srcs - 1, time, bytes, n)
  }

  function AllSends(baseTime: int, interval: int, bytes: nat, n: nat, steps: nat): seq<Event> {
    if steps == 0 then []
    else AllSends(baseTime, interval, bytes, n, steps - 1) + StepSends(baseTime + (steps - 1) * interval, bytes, n, n)
  }

  class CXLFabricSimulator {
    const numNodes: nat
    const partialSumBytes: nat
    const switchNode: CXLSwitchNode

    var nodes: seq<CXLPIMNode>
    var eventQueue: seq<Event>
    var stats: Stats
    var layout: Option<bool>

    ghost predicate Valid()
      reads this, switchNode
    {
      switchNode.Valid() && |nodes| == numNodes && Addressed(eventQueue, numNodes)
    }

    constructor (numNodes: nat, baseLatency: nat, gbps: real, partialSumBytes: nat)
      requires gbps > 0.0
      ensures Valid() && fresh(switchNode) && this.numNodes == numNodes && eventQueue == []
      ensures this.partialSumBytes == partialSumBytes && stats == Stats(0, 0, 0, 0, 0, 0, 0, 0) && layout == None
      ensures forall n :: 0 <= n < numNodes ==> nodes[n] == CXLPIMNode([], 0, 0, 0, 0, 0)
      ensures switchNode.Wires() == Wiring(baseLatency, gbps, seq(numNodes, k => k))
      ensures switchNode.routed == seq(numNodes, _ => [])
    {
      this.numNodes, this.partialSumBytes := numNodes, partialSumBytes;
      var s := Connect(numNodes, baseLatency, gbps);
      switchNode := s;
      nodes := seq(numNodes, _ => CXLPIMNode([], 0, 0, 0, 0, 0));
      eventQueue, stats, layout := [], Stats(0, 0, 0, 0, 0, 0, 0, 0), None;
    }

    /** Takes a least event out of the heap. */
    method Pop() returns (e: Event, ghost i: nat)
      requires eventQueue != []
      modifies this`eventQueue
      ensures Earliest(old(eventQueue), i) && e == old(eventQueue)[i] && eventQueue == Without(old(eventQueue), i)
    {
      EarliestExists(eventQueue);
      var at: nat :| at < |eventQueue| && Earliest(eventQueue, at);
      e, i := eventQueue[at], at;
      eventQueue := eventQueue[..at] + eventQueue[at + 1..];
    }

    /**
     * Handles one event: sends go through the switch, a partial send puts its reduce into the queue, a
     * reduce is counted.
     */
    method Handle(e: Event)
      requires switchNode.Valid() && |nodes| == numNodes
      requires e.kind == PimSendPartial || e.kind == PimReduceAttn ==> e.dst < numNodes
      modifies this`nodes, this`eventQueue, this`stats, switchNode
      ensures switchNode.Valid() && |nodes| == numNodes && switchNode.Wires() == old(switchNode.Wires())
      ensures Handled(switchNode.Wires(), old(switchNode.routed), e, old(eventQueue), old(nodes), old(stats),
                      eventQueue, nodes, stats)
      ensures switchNode.routed == Sent(switchNode.Wires(), old(switchNode.routed), e)
    {
      hide CXLSwitchNode.PortOk, SumTotals, Addressed, ArrivalFor, DelayFor, RoutedAfter;
      match e.kind
      case P2PSend =>
        var at, delay := switchNode.RoutePacket(e.dst, e.bytes, e.time);
        stats := stats.(p2pTransfers := stats.p2pTransfers + 1, p2pBytes := stats.p2pBytes + e.bytes,
                        p2pLatency := stats.p2pLatency + (at - e.time), p2pDelay := stats.p2pDelay + delay);
      case PimSendPartial =>
        var at, delay := switchNode.RoutePacket(e.dst, e.bytes, e.time);
        stats := stats.(partialTransfers := stats.partialTransfers + 1, partialBytes := stats.partialBytes + e.bytes,
                        partialLatency := stats.partialLatency + (at - e.time));
        eventQueue := eventQueue + [Event(at, PimReduceAttn, e.src, e.dst, e.req, e.bytes)];
      case PimReduceAttn =>
        stats := stats.(reduces := stats.reduces + 1);
        nodes := nodes[e.dst := nodes[e.dst].(reduceAttn := nodes[e.dst].reduceAttn + 1)];
      case OtherEvent =>
    }

    /**
     * Runs the queue empty. The events popped are those of the queue and, for each partial send among
     * them, its reduce at the destination when the send arrives there; they are popped in order of
     * time, and the switch and the statistics are what these events make of them one after another.
     */
    method SimulateNetwork() returns (ghost popped: seq<Event>)
      requires Valid()
      modifies this`nodes, this`eventQueue, this`stats, switchNode
      ensures Valid() && eventQueue == []
      ensures |popped| == Steps(old(eventQueue)) && forall i, j :: 0 <= i < j < |popped| ==>
                 popped[i].time <= popped[j].time
      ensures var w, routed := switchNode.Wires(), old(switchNode.routed);
              && w == old(switchNode.Wires())
              && multiset(popped) == multiset(old(eventQueue)) + multiset(ReducesBy(w, routed, popped))
              && switchNode.routed == RoutedBy(w, routed, popped) && stats == TalliedBy(w, routed, old(stats), popped)
      ensures Balanced(old(eventQueue), old(nodes), [], nodes)
      ensures Accounted(old(eventQueue), old(stats), [], stats)
    {
      hide Steps, Owes, OfKind, Balanced, Accounted, Addressed, Replayed, ArrivalFor, DelayFor, RoutedAfter, Tallied,
           CXLSwitchNode.Valid, ReducesOf;
      switchNode.Wired();
      ghost var q0, n0, s0, routed0, w := eventQueue, nodes, stats, switchNode.routed, switchNode.Wires();
      NothingReplayed(w, q0, routed0, s0);
      popped := [];
      StartBalanced(q0, n0, s0);
      while eventQueue != []
        invariant Valid()
        invariant Balanced(q0, n0, eventQueue, nodes) && Accounted(q0, s0, eventQueue, stats)
        invariant switchNode.Wires() == w && |switchNode.routed| == |w.links| && w.gbps > 0.0
        invariant Replayed(w, q0, routed0, s0, popped, eventQueue, switchNode.routed, stats)
        invariant |popped| + Steps(eventQueue) == Steps(q0)
        invariant forall i, j :: 0 <= i < j < |popped| ==> popped[i].time <= popped[j].time
        invariant popped != [] ==> NoneBefore(eventQueue, popped[|popped| - 1].time)
        decreases Steps(eventQueue)
      {
        ghost var q, n, s, routed := eventQueue, nodes, stats, switchNode.routed;
        ghost var i;
        var e;
        e, i := Pop();
        PoppedAddressed(q, i, numNodes);
        Handle(e);
        ReplayedStep(w, q0, routed0, s0, popped, q, routed, s, i);
        TurnKeeps(q0, n0, s0, q, n, s, i, w, routed, eventQueue, nodes, stats);
        TurnTime(q, i, w, routed, eventQueue, numNodes);
        popped := popped + [e];
      }
      NoSteps();
      AllReplayed(w, q0, routed0, s0, popped, switchNode.routed, stats);
    }

    /** One node sends its partial sum to every other node. */
    method InjectFrom(src: nat, time: int)
      requires Valid() && src < numNodes
      modifies this`nodes, this`eventQueue
      ensures Valid() && SentBy(old(eventQueue), old(nodes), eventQueue, nodes, numNodes, src)
      ensures eventQueue == old(eventQueue) + SendsFrom(src, time, partialSumBytes, numNodes)
    {
      hide Owes, OfKind, Steps, OthersKept, SentTo, SentBy, CXLSwitchNode.Valid;
      SentToNone(eventQueue, nodes, numNodes, src);
      for dst: nat := 0 to numNodes
        invariant Valid() && SentTo(old(eventQueue), old(nodes), eventQueue, nodes, numNodes, src, dst)
        invariant eventQueue == old(eventQueue) + SendsFrom(src, time, partialSumBytes, dst)
      {
        SentToNext(old(eventQueue), old(nodes), eventQueue, nodes, numNodes, src, dst,
                   Event(time, PimSendPartial, src, dst, -1, partialSumBytes));
        if src != dst {
          var e := Event(time, PimSendPartial, src, dst, -1, partialSumBytes);
          eventQueue := eventQueue + [e];
          nodes := nodes[src := nodes[src].(sendPartial := nodes[src].sendPartial + 1)];
        }
      }
      SentToAll(old(eventQueue), old(nodes), eventQueue, nodes, numNodes, src);
    }

    /** One decode step: every node sends its partial sum to every other. */
    method InjectStep(time: int)
      requires Valid()
      modifies this`nodes, this`eventQueue
      ensures Valid() && Injected(old(eventQueue), old(nodes), eventQueue, nodes, numNodes, 1)
      ensures eventQueue == old(eventQueue) + StepSends(time, partialSumBytes, numNodes, numNodes)
    {
      hide SendsFrom, Owes, OfKind, Addressed, CXLSwitchNode.Valid, Steps, SentBy, SentBySome, OthersKept;
      SentByNone(eventQueue, nodes, numNodes);
      for src: nat := 0 to numNodes
        invariant Valid() && SentBySome(old(eventQueue), old(nodes), eventQueue, nodes, numNodes, src)
        invariant eventQueue == old(eventQueue) + StepSends(time, partialSumBytes, numNodes, src)
      {
        ghost var q, n := eventQueue, nodes;
        InjectFrom(src, time);
        SentByOneMore(old(eventQueue), old(nodes), q, n, eventQueue, nodes, numNodes, src);
      }
      SentByAll(old(eventQueue), old(nodes), eventQueue, nodes, numNodes);
    }

    /** All decode steps, one every `interval`. */
    method InjectDistributedAttention(steps: nat, baseTime: int, interval: int)
      requires Valid()
      modifies this`nodes, this`eventQueue
      ensures Valid() && Injected(old(eventQueue), old(nodes), eventQueue, nodes, numNodes, steps)
      ensures eventQueue == old(eventQueue) + AllSends(baseTime, interval, partialSumBytes, numNodes, steps)
    {
      hide StepSends, Injected, Owes, OfKind, Addressed;
      NothingInjected(eventQueue, nodes, numNodes);
      for step: nat := 0 to steps
        invariant Valid() && Injected(old(eventQueue), old(nodes), eventQueue, nodes, numNodes, step)
        invariant eventQueue == old(eventQueue) + AllSends(baseTime, interval, partialSumBytes, numNodes, step)
      {
        ghost var q, n := eventQueue, nodes;
        InjectStep(baseTime + step * interval);
        InjectedStep(old(eventQueue), old(nodes), q, n, eventQueue, nodes, numNodes, step);
      }
    }

    /**
     * After `steps` decode steps each node has received as many partial sums as it sent, whatever
     * transfers were queued before.
     */
    method RunDistributedAttention(steps: nat, baseTime: int, interval: int)
      requires Valid() && NoAttention(eventQueue)
      modifies this`nodes, this`eventQueue, this`stats, switchNode
      ensures Valid() && eventQueue == []
      ensures forall n :: 0 <= n < numNodes ==>
                && nodes[n].reduceAttn == old(nodes)[n].reduceAttn + steps * (numNodes - 1)
                && nodes[n].sendPartial == old(nodes)[n].sendPartial + steps * (numNodes - 1)
      ensures stats.reduces == old(stats).reduces + steps * (numNodes * (numNodes - 1))
    {
      hide Owes, OfKind, Addressed;
      NothingOwed(eventQueue);
      InjectDistributedAttention(steps, baseTime, interval);
      ghost var popped := SimulateNetwork();
      EmptyCounts();
    }

    // ---------------------------------------------------------- loading a trace

    /** Whether a line reads or writes shared data; the layout is looked up at the first line of the low range. */
    method IsSharedAccess(l: TraceLine, lines: seq<TraceLine>) returns (isShared: bool)
      modifies this`layout
      ensures layout == if SharedK(l.addr) then Some(LayoutOf(old(layout), lines)) else old(layout)
      ensures isShared <==> SharedAddress(l.addr) && (SharedK(l.addr) ==> LayoutOf(old(layout), lines))
    {
      isShared := SharedAddress(l.addr);
      if isShared && SharedK(l.addr) {
        if layout == None {
          var found := DetectLayout(lines);
          layout := Some(found);
        }
        if !layout.value {
          isShared := false;
        }
      }
    }

    /** Hands a line to its node, and queues a transfer if another node has to read it. */
    method Deliver(shared: nat, privates: seq<nat>, l: TraceLine, isShared: bool, ghost rule: Rule)
      requires Valid() && rule.Ok(numNodes) && rule.skipSelf && isShared == rule.IsShared(l)
      requires rule.shared == shared && rule.privates == privates
      modifies this`nodes, this`eventQueue
      ensures Valid() && Delivered(rule, l, old(nodes), old(eventQueue), nodes, eventQueue)
    {
      var home := privates[l.Req() % |privates|];
      var target := if isShared then shared else home;
      nodes := nodes[target := nodes[target].(traceEntries := nodes[target].traceEntries + [Local(l)],
                                              localAccesses := nodes[target].localAccesses + 1)];
      if isShared && l.StartsWithR() && home != shared {
        eventQueue := eventQueue + [Event(l.Time(0), P2PSend, shared, home, l.Req(), 64)];
        nodes := nodes[shared := nodes[shared].(remoteOut := nodes[shared].remoteOut + 1)];
        nodes := nodes[home := nodes[home].(remoteIn := nodes[home].remoteIn + 1)];
      }
    }

    /**
     * Splits a trace among the nodes: each valid line goes to one node, in order, and each shared read
     * by another node is counted at both ends and queued as a transfer.
     */
    method LoadAndSplitTrace(config: seq<NodeConfig>, lines: seq<TraceLine>)
      requires Valid() && ConfigOk(config, numNodes) && LoadRule(config, true).Ok(numNodes)
      modifies this`nodes, this`eventQueue, this`layout
      ensures Valid()
      ensures layout == if LowLines(lines) == 0 then old(layout) else Some(LayoutOf(old(layout), lines))
      ensures LoadRule(config, LayoutOf(old(layout), lines)).Ok(numNodes)
      ensures Loaded(LoadRule(config, LayoutOf(old(layout), lines)), lines, old(nodes), old(eventQueue), nodes,
                     eventQueue)
    {
      hide Loaded, Delivered, Addressed, IdsOf;
      var known := LoadRule(config, true);
      ghost var rule := known.(lowIsShared := LayoutOf(layout, lines));
      StartLoaded(rule, nodes, eventQueue);
      for i := 0 to |lines|
        invariant Valid() && Loaded(rule, lines[..i], old(nodes), old(eventQueue), nodes, eventQueue)
        invariant layout == if LowLines(lines[..i]) == 0 then old(layout) else Some(LayoutOf(old(layout), lines))
      {
        assert Init(lines[..i + 1]) == lines[..i] && Last(lines[..i + 1]) == lines[i];
        ghost var n, q := nodes, eventQueue;
        var l := lines[i];
        if l.Kept() {
          var isShared := IsSharedAccess(l, lines);
          Deliver(known.shared, known.privates, l, isShared, rule);
        }
        LoadedStep(rule, lines, i, old(nodes), old(eventQueue), n, q, nodes, eventQueue);
      }
      assert lines[..|lines|] == lines;
    }
  }

  /** There is no attention traffic in the queue. */
  ghost predicate NoAttention(q: seq<Event>) {
    forall e :: e in q ==> e.kind != PimSendPartial && e.kind != PimReduceAttn
  }

  lemma {:induction false} NothingOwed(q: seq<Event>)
    requires NoAttention(q)
    ensures forall n :: Owes(q, n) == 0
    ensures OfKind(q, PimSendPartial) == OfKind(q, PimReduceAttn) == 0
  {
    if q != [] {
      NothingOwed(q[1..]);
    }
  }

  lemma {:induction false} EmptyCounts()
    ensures forall n :: Owes([], n) == 0
    ensures forall kind :: OfKind([], kind) == 0
  {
  }

  lemma {:induction false} NoSteps()
    ensures Steps([]) == 0
  {
  }

  lemma {:induction false} PoppedAddressed(q: seq<Event>, i: nat, numNodes: nat)
    requires i < |q| && Addressed(q, numNodes)
    ensures q[i].kind == PimSendPartial || q[i].kind == PimReduceAttn ==> q[i].dst < numNodes
  {
  }

  lemma {:induction false} StartBalanced(q: seq<Event>, n: seq<CXLPIMNode>, s: Stats)
    ensures Balanced(q, n, q, n) && Accounted(q, s, q, s)
  {
  }
}
