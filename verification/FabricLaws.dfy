/**
 * What a run of the fabric (scripts/cxl_fabric_simulator.py) amounts to: which packets each port routed,
 * what the latencies add up to, when each partial sum is reduced, and what traffic was queued.
 */
module FabricLaws {
  import opened Wrappers
  import opened Bandwidth
  import opened Trace
  import opened Splitting
  import opened CxlSwitch
  import opened CxlFabric

  predicate Wired(w: Wiring, routed: Routes) {
    w.gbps > 0.0 && |routed| == |w.links|
  }

  // ------------------------------------------------------------ what each port routed

  /** The sends among the events that go to the node of port `i`, as packets. */
  function PacketsTo(w: Wiring, popped: seq<Event>, i: nat): seq<Packet>
    requires w.gbps > 0.0
  {
    if popped == [] then []
    else
      var e := Last(popped);
      PacketsTo(w, Init(popped), i) +
      if (e.kind == P2PSend || e.kind == PimSendPartial) && PortFor(w.links, e.dst) == Some(i)
      then [Packet(e.time, TransferTime(w.gbps, e.bytes), e.bytes)] else []
  }

  /** Each port has routed the sends to its node, in the order they were popped. */
  lemma {:induction false} PortsRouted(w: Wiring, routed: Routes, popped: seq<Event>, i: nat)
    requires Wired(w, routed) && i < |routed|
    ensures RoutedBy(w, routed, popped)[i] == routed[i] + PacketsTo(w, popped, i)
  {
    hide TransferTime, PortFor;
    if popped != [] {
      PortsRouted(w, routed, Init(popped), i);
    }
  }

  // ------------------------------------------------------------ what the latencies add up to

  /** How long the events of a kind waited at their ports. */
  function Waits(w: Wiring, routed: Routes, popped: seq<Event>, kind: EventType): int
    requires Wired(w, routed)
  {
    if popped == [] then 0
    else
      var e := Last(popped);
      Waits(w, routed, Init(popped), kind) +
      if e.kind == kind then DelayFor(w, RoutedBy(w, routed, Init(popped)), e.dst, e.time) else 0
  }

  /** How long they occupied the ports: one without a port for its node occupies none. */
  function OnTheWire(w: Wiring, popped: seq<Event>, kind: EventType): nat
    requires w.gbps > 0.0
  {
    if popped == [] then 0
    else
      var e := Last(popped);
      OnTheWire(w, Init(popped), kind) +
      if e.kind == kind && e.dst in w.links then TransferTime(w.gbps, e.bytes) else 0
  }

  function BytesOf(popped: seq<Event>, kind: EventType): nat {
    if popped == [] then 0
    else BytesOf(Init(popped), kind) + if Last(popped).kind == kind then Last(popped).bytes else 0
  }

  lemma {:induction false} LastOfKind(popped: seq<Event>, kind: EventType)
    requires popped != []
    ensures OfKind(popped, kind) == OfKind(Init(popped), kind) + if Last(popped).kind == kind then 1 else 0
  {
    assert popped == Init(popped) + [Last(popped)];
    OfKindConcat(Init(popped), [Last(popped)], kind);
  }

  /** The latency of a send is the base latency, its wait and its transfer. */
  lemma {:induction false} LatencyParts(w: Wiring, routed: Routes, e: Event)
    requires Wired(w, routed)
    ensures ArrivalOf(w, routed, e) == e.time + w.base + DelayFor(w, routed, e.dst, e.time) +
                                       if e.dst in w.links then TransferTime(w.gbps, e.bytes) else 0
  {
    hide TransferTime, BusyAfter;
  }

  /** The statistics count the events, their bytes and the three parts of their latencies. */
  lemma {:induction false} LatencySums(w: Wiring, routed: Routes, s: Stats, popped: seq<Event>)
    requires Wired(w, routed)
    ensures var r, p2p, partial := TalliedBy(w, routed, s, popped), OfKind(popped, P2PSend),
                                   OfKind(popped, PimSendPartial);
            && r.p2pTransfers == s.p2pTransfers + p2p && r.p2pBytes == s.p2pBytes + BytesOf(popped, P2PSend)
            && r.p2pDelay == s.p2pDelay + Waits(w, routed, popped, P2PSend)
            && r.p2pLatency == s.p2pLatency + w.base * p2p + Waits(w, routed, popped, P2PSend)
                                            + OnTheWire(w, popped, P2PSend)
            && r.partialTransfers == s.partialTransfers + partial
            && r.partialBytes == s.partialBytes + BytesOf(popped, PimSendPartial)
            && r.partialLatency == s.partialLatency + w.base * partial + Waits(w, routed, popped, PimSendPartial)
                                                    + OnTheWire(w, popped, PimSendPartial)
            && r.reduces == s.reduces + OfKind(popped, PimReduceAttn)
  {
    hide TransferTime, DelayFor, RoutedBy, ArrivalOf;
    if popped == [] {
      NoneOfKind();
    } else {
      LatencySums(w, routed, s, Init(popped));
      LastOfKind(popped, P2PSend);
      LastOfKind(popped, PimSendPartial);
      LastOfKind(popped, PimReduceAttn);
      LatencyParts(w, RoutedBy(w, routed, Init(popped)), Last(popped));
      OneMore(w.base, OfKind(Init(popped), P2PSend));
      OneMore(w.base, OfKind(Init(popped), PimSendPartial));
    }
  }

  lemma {:induction false} NoneOfKind()
    ensures forall kind :: OfKind([], kind) == 0
  {
  }

  lemma {:induction false} OneMore(base: int, n: int)
    ensures base * (n + 1) == base * n + base
  {
  }

  // ------------------------------------------------------------ reduces

  /**
   * The reduces put into the queue are those of the partial sends, in the order these are popped: the
   * k-th belongs to the k-th partial send, and happens at its destination when it arrives there.
   */
  lemma {:induction false} ReduceOfSend(w: Wiring, routed: Routes, popped: seq<Event>, i: nat)
    requires Wired(w, routed) && i < |popped|
    ensures |ReducesBy(w, routed, popped)| == OfKind(popped, PimSendPartial)
    ensures var e, before := popped[i], RoutedBy(w, routed, popped[..i]);
            var k := OfKind(popped[..i], PimSendPartial);
            e.kind == PimSendPartial ==>
              && k < |ReducesBy(w, routed, popped)|
              && ReducesBy(w, routed, popped)[k] ==
                 Event(e.time + w.base + DelayFor(w, before, e.dst, e.time) +
                         (if e.dst in w.links then TransferTime(w.gbps, e.bytes) else 0),
                       PimReduceAttn, e.src, e.dst, e.req, e.bytes)
  {
    hide TransferTime, DelayFor, RoutedBy, ArrivalOf;
    ReducesCounted(w, routed, popped);
    LatencyParts(w, RoutedBy(w, routed, popped[..i]), popped[i]);
    if i < |popped| - 1 {
      ReduceOfSend(w, routed, Init(popped), i);
      assert Init(popped)[..i] == popped[..i];
    } else {
      ReducesCounted(w, routed, Init(popped));
    }
  }

  lemma {:induction false} ReducesCounted(w: Wiring, routed: Routes, popped: seq<Event>)
    requires Wired(w, routed)
    ensures |ReducesBy(w, routed, popped)| == OfKind(popped, PimSendPartial)
  {
    hide ArrivalOf, RoutedBy;
    if popped == [] {
      NoneOfKind();
    } else {
      ReducesCounted(w, routed, Init(popped));
      LastOfKind(popped, PimSendPartial);
    }
  }

  // ------------------------------------------------------------ loaded traffic

  /** One transfer of a cache line is queued for each read of shared data by another node, at its time. */
  lemma {:induction false} TransfersLineByLine(rule: Rule, lines: seq<TraceLine>, l: TraceLine)
    requires rule.privates != []
    ensures var req, time := if l.arity > 4 then l.req else 0, if l.arity > 3 then l.timestamp else 0;
            var shared := 0x4000_0000 <= l.addr < 0x5000_0000 ||
                          (rule.lowIsShared && 0x1000_0000 <= l.addr < 0x2000_0000);
            var home := rule.privates[req % |rule.privates|];
            CxlFabric.Transfers(Crossings(rule, lines + [l])) ==
            CxlFabric.Transfers(Crossings(rule, lines)) +
            if l.arity >= 3 && shared && l.op != "" && l.op[0] == 'R' && !(rule.skipSelf && home == rule.shared)
            then [Event(time, P2PSend, rule.shared, home, req, 64)] else []
  {
    LineByLine(rule, lines, l, 0);
    var before := Crossings(rule, lines);
    assert forall c :: CxlFabric.Transfers(before + [c]) == CxlFabric.Transfers(before) + [Transfer(c)];
    assert before + [] == before;
  }

  // ------------------------------------------------------------ injected traffic

  function StepTime(base: int, interval: int, k: int): int {
    base + k * interval
  }

  /** The injected events are one partial sum from every node to every other, in each step, at its time. */
  lemma {:induction false} InjectedIff(base: int, interval: int, bytes: nat, n: nat, steps: nat, e: Event)
    ensures e in AllSends(base, interval, bytes, n, steps) <==>
            && e.kind == PimSendPartial && e.src < n && e.dst < n && e.src != e.dst && e.req == -1
            && e.bytes == bytes && exists k :: 0 <= k < steps && e.time == StepTime(base, interval, k)
  {
    hide StepTime, StepSends;
    if steps > 0 {
      InjectedIff(base, interval, bytes, n, steps - 1, e);
      LastStep(base, interval, bytes, n, steps);
      StepIff(StepTime(base, interval, steps - 1), bytes, n, n, e);
    }
  }

  lemma {:induction false} LastStep(base: int, interval: int, bytes: nat, n: nat, steps: nat)
    requires steps > 0
    ensures AllSends(base, interval, bytes, n, steps) ==
            AllSends(base, interval, bytes, n, steps - 1) + StepSends(StepTime(base, interval, steps - 1), bytes, n, n)
  {
    hide StepSends;
  }

  lemma {:induction false} StepIff(time: int, bytes: nat, n: nat, srcs: nat, e: Event)
    ensures e in StepSends(time, bytes, n, srcs) <==>
            && e.kind == PimSendPartial && e.src < srcs && e.dst < n && e.src != e.dst && e.req == -1
            && e.bytes == bytes && e.time == time
  {
    hide SendsFrom;
    if srcs > 0 {
      assert StepSends(time, bytes, n, srcs) ==
             StepSends(time, bytes, n, srcs - 1) + SendsFrom(srcs - 1, time, bytes, n);
      StepIff(time, bytes, n, srcs - 1, e);
      SendsIff(srcs - 1, time, bytes, n, e);
    }
  }

  lemma {:induction false} SendsIff(src: nat, time: int, bytes: nat, dsts: nat, e: Event)
    ensures e in SendsFrom(src, time, bytes, dsts) <==>
            && e.kind == PimSendPartial && e.src == src && e.dst < dsts && e.dst != src && e.req == -1
            && e.bytes == bytes && e.time == time
  {
    if dsts > 0 {
      SendsIff(src, time, bytes, dsts - 1, e);
    }
  }
}
