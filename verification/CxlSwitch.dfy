/** Egress ports of the CXL switch (scripts/cxl_fabric_simulator.py, SwitchPort and CXLSwitchNode). */
module CxlSwitch {
  import opened Wrappers
  import opened Bandwidth

  // ------------------------------------------------------------ one port, as a run of packets

  /** A packet as its port saw it: when it was routed, how long it occupies the port, and its size. */
  datatype Packet = Packet(now: int, transfer: nat, bytes: nat)

  /** When a packet arrives that is routed while the port is busy until `busy`. */
  function Arrival(base: int, busy: int, p: Packet): int {
    Max(busy, p.now) + base + p.transfer
  }

  function NextBusy(base: int, busy: int, p: Packet): int {
    Max(busy, p.now + base) + p.transfer
  }

  function BusyAfter(base: int, start: int, ps: seq<Packet>): int {
    if ps == [] then start else NextBusy(base, BusyAfter(base, start, Init(ps)), Last(ps))
  }

  /** The arrival of the k-th packet of a run. */
  function ArrivalAt(base: int, start: int, ps: seq<Packet>, k: nat): int
    requires k < |ps|
  {
    Arrival(base, BusyAfter(base, start, ps[..k]), ps[k])
  }

  function Transfers(ps: seq<Packet>): nat {
    if ps == [] then 0 else Transfers(Init(ps)) + Last(ps).transfer
  }

  /** The busy clock never goes back, and stays within the base latency below the arrival. */
  lemma {:induction false} BusyNearArrival(base: nat, start: int, ps: seq<Packet>, k: nat)
    requires k < |ps|
    ensures var busy := BusyAfter(base, start, ps[..k + 1]);
            && BusyAfter(base, start, ps[..k]) + ps[k].transfer <= busy
            && busy <= ArrivalAt(base, start, ps, k) <= busy + base
  {
    assert ps[..k + 1][..k] == ps[..k];
  }

  /** Later packets arrive later, by at least their own transfer time. */
  lemma {:induction false} ArrivalSpacing(base: nat, start: int, ps: seq<Packet>, k: nat)
    requires k + 1 < |ps|
    ensures ArrivalAt(base, start, ps, k) + ps[k + 1].transfer <= ArrivalAt(base, start, ps, k + 1)
  {
    BusyNearArrival(base, start, ps, k);
  }

  /**
   * The bandwidth of the port: over any stretch of a run, in whatever time order the packets come,
   * the transfer times of all packets after the first fit between the first and the last arrival.
   */
  lemma {:induction false} PortBandwidth(base: nat, start: int, ps: seq<Packet>, i: nat, j: nat)
    requires i <= j < |ps|
    ensures Transfers(ps[i + 1..j + 1]) <= ArrivalAt(base, start, ps, j) - ArrivalAt(base, start, ps, i)
  {
    if i < j {
      PortBandwidth(base, start, ps, i, j - 1);
      ArrivalSpacing(base, start, ps, j - 1);
      var s := ps[i + 1..j + 1];
      assert s[..|s| - 1] == ps[i + 1..j] && s[|s| - 1] == ps[j];
    }
  }

  /**
   * A packet that finds its port idle arrives exactly the base latency and its transfer time after it
   * was routed; one that finds it busy, that long after the port becomes free. The port is then busy
   * until the packet's transfer ends, which starts no earlier than the packet has crossed the switch.
   */
  lemma {:induction false} IdleOrBusy(base: nat, start: int, ps: seq<Packet>, k: nat)
    requires k < |ps|
    ensures var busy, p := BusyAfter(base, start, ps[..k]), ps[k];
            && (busy <= p.now ==> ArrivalAt(base, start, ps, k) == p.now + base + p.transfer)
            && (busy > p.now ==> ArrivalAt(base, start, ps, k) == busy + base + p.transfer)
            && (busy <= p.now + base ==> BusyAfter(base, start, ps[..k + 1]) == p.now + base + p.transfer)
            && (busy > p.now + base ==> BusyAfter(base, start, ps[..k + 1]) == busy + p.transfer)
  {
    assert ps[..k + 1][..k] == ps[..k];
  }

  /**
   * A burst of packets routed at one moment through an idle port: each arrives once its own transfer and
   * those before it have passed, and all but the first pay the base latency twice.
   */
  lemma {:induction false} BurstArrivals(base: nat, start: int, ps: seq<Packet>, now: int, k: nat)
    requires k < |ps| && start <= now && forall i :: 0 <= i < |ps| ==> ps[i].now == now
    ensures BusyAfter(base, start, ps[..k + 1]) == now + base + Transfers(ps[..k + 1])
    ensures ArrivalAt(base, start, ps, k) == now + base + Transfers(ps[..k + 1]) + if k > 0 then base else 0
  {
    assert ps[..k + 1][..k] == ps[..k];
    if k > 0 {
      BurstArrivals(base, start, ps, now, k - 1);
    } else {
      assert ps[..0] == [];
    }
  }

  // ------------------------------------------------------------ statistics

  /** What a port, or the whole switch, counts: packets, bytes, waiting time, and packets that had to wait. */
  datatype Totals = Totals(packets: nat, bytes: nat, queueDelay: int, congestion: nat)
  {
    function Plus(t: Totals): Totals {
      Totals(packets + t.packets, bytes + t.bytes, queueDelay + t.queueDelay, congestion + t.congestion)
    }
  }

  /** What one packet that waits `delay` adds. */
  function TotalsOf(bytes: nat, delay: int): Totals {
    Totals(1, bytes, delay, if delay > 0 then 1 else 0)
  }

  function Delay(busy: int, now: int): int {
    Max(0, busy - now)
  }

  /** The totals of a run of packets through one port. */
  function RunTotals(base: int, ps: seq<Packet>): Totals {
    if ps == [] then Totals(0, 0, 0, 0)
    else RunTotals(base, Init(ps)).Plus(TotalsOf(Last(ps).bytes, Delay(BusyAfter(base, 0, Init(ps)), Last(ps).now)))
  }

  // ------------------------------------------------------------ the switch

  /** A port with its statistics. */
  datatype SwitchPort = SwitchPort(id: nat, node: int, gbps: real, totals: Totals)

  function Links(ports: seq<SwitchPort>): (links: seq<int>)
    ensures |links| == |ports| && forall i :: 0 <= i < |ports| ==> links[i] == ports[i].node
  {
    seq(|ports|, i requires 0 <= i < |ports| => ports[i].node)
  }

  function SumTotals(ports: seq<SwitchPort>): Totals {
    if ports == [] then Totals(0, 0, 0, 0) else SumTotals(Init(ports)).Plus(Last(ports).totals)
  }

  lemma {:induction false} SumUpdate(ports: seq<SwitchPort>, i: nat, p: SwitchPort, t: Totals)
    requires i < |ports| && p.totals == ports[i].totals.Plus(t)
    ensures SumTotals(ports[i := p]) == SumTotals(ports).Plus(t)
  {
    if i < |ports| - 1 {
      assert Init(ports[i := p]) == Init(ports)[i := p];
      SumUpdate(Init(ports), i, p, t);
    } else {
      assert Init(ports[i := p]) == Init(ports);
    }
  }

  /** The switch as the packets see it: the node of each port, in the order of the ports. */
  datatype Wiring = Wiring(base: nat, gbps: real, links: seq<int>)

  /** The packets each port has routed. */
  type Routes = seq<seq<Packet>>

  /** The first port connected to the node. */
  function PortFor(links: seq<int>, node: int): (at: Option<nat>)
    ensures at.Some? ==> at.value < |links| && links[at.value] == node && node !in links[..at.value]
    ensures at.None? <==> node !in links
  {
    if links == [] then None
    else
      var before := PortFor(Init(links), node);
      if before.None? && Last(links) == node then Some(|links| - 1) else before
  }

  lemma {:induction false} FirstIsPort(links: seq<int>, node: int, i: nat)
    requires i < |links| && links[i] == node && node !in links[..i]
    ensures PortFor(links, node) == Some(i)
  {
  }

  function PacketOf(w: Wiring, bytes: nat, now: int): Packet
    requires w.gbps > 0.0
  {
    Packet(now, TransferTime(w.gbps, bytes), bytes)
  }

  /** How long a packet to a node waits behind those its port has routed so far; without a port it does not wait. */
  function DelayFor(w: Wiring, routed: Routes, node: int, now: int): int
    requires |routed| == |w.links|
  {
    match PortFor(w.links, node)
    case None => 0
    case Some(i) => Delay(BusyAfter(w.base, 0, routed[i]), now)
  }

  /** When the packet arrives; without a port for the node only the base latency passes. */
  function ArrivalFor(w: Wiring, routed: Routes, node: int, bytes: nat, now: int): int
    requires w.gbps > 0.0 && |routed| == |w.links|
  {
    match PortFor(w.links, node)
    case None => now + w.base
    case Some(i) => Arrival(w.base, BusyAfter(w.base, 0, routed[i]), PacketOf(w, bytes, now))
  }

  function RoutedAfter(w: Wiring, routed: Routes, node: int, bytes: nat, now: int): (r: Routes)
    requires w.gbps > 0.0 && |routed| == |w.links|
    ensures |r| == |routed|
  {
    match PortFor(w.links, node)
    case None => routed
    case Some(i) => routed[i := routed[i] + [PacketOf(w, bytes, now)]]
  }

  /** A packet never arrives before the base latency and its waiting time have passed. */
  lemma {:induction false} ArrivalLater(w: Wiring, routed: Routes, node: int, bytes: nat, now: int)
    requires w.gbps > 0.0 && |routed| == |w.links|
    ensures now + w.base + DelayFor(w, routed, node, now) <= ArrivalFor(w, routed, node, bytes, now)
    ensures 0 <= DelayFor(w, routed, node, now)
  {
    hide BusyAfter, TransferTime;
  }

  class CXLSwitchNode {
    const baseLatency: nat
    const gbps: real

    var ports: seq<SwitchPort>
    var busyUntil: map<nat, int>
    var totals: Totals
    ghost var routed: Routes

    /**
     * Each port's busy clock and statistics are those of the run of packets it has routed since 0, and
     * the statistics of the switch are the sums over its ports.
     */
    ghost predicate Valid()
      reads this
    {
      && gbps > 0.0 && |routed| == |ports| && totals == SumTotals(ports)
      && (forall i :: 0 <= i < |ports| ==> PortOk(ports[i], routed[i]))
      && (forall i, j :: 0 <= i < j < |ports| ==> ports[i].id != ports[j].id)
    }

    ghost predicate PortOk(p: SwitchPort, ps: seq<Packet>)
      reads this`busyUntil
    {
      && p.gbps == gbps && p.totals == RunTotals(baseLatency, ps)
      && p.id in busyUntil && busyUntil[p.id] == BusyAfter(baseLatency, 0, ps)
    }

    function Wires(): Wiring
      reads this`ports
    {
      Wiring(baseLatency, gbps, Links(ports))
    }

    lemma {:induction false} Wired()
      requires Valid()
      ensures Wires().gbps > 0.0 && |routed| == |Wires().links|
    {
    }

    constructor (baseLatency: nat, gbps: real)
      requires gbps > 0.0
      ensures Valid() && Wires() == Wiring(baseLatency, gbps, []) && routed == []
    {
      this.baseLatency, this.gbps := baseLatency, gbps;
      ports, busyUntil, routed, totals := [], map[], [], Totals(0, 0, 0, 0);
    }

    method AddPort(id: nat, node: int)
      requires Valid() && forall i :: 0 <= i < |ports| ==> ports[i].id != id
      modifies this
      ensures Valid() && ports == old(ports) + [SwitchPort(id, node, gbps, Totals(0, 0, 0, 0))]
      ensures Wires() == Wiring(baseLatency, gbps, old(Wires()).links + [node]) && routed == old(routed) + [[]]
    {
      assert Init(ports + [SwitchPort(id, node, gbps, Totals(0, 0, 0, 0))]) == ports;
      ports := ports + [SwitchPort(id, node, gbps, Totals(0, 0, 0, 0))];
      busyUntil := busyUntil[id := 0];
      routed := routed + [[]];
      assert Wires().links == old(Wires()).links + [node];
    }

    method FindPort(node: int) returns (at: Option<nat>)
      ensures at == PortFor(Wires().links, node)
    {
      for i := 0 to |ports|
        invariant node !in Wires().links[..i]
      {
        if ports[i].node == node {
          FirstIsPort(Wires().links, node, i);
          return Some(i);
        }
      }
      assert Wires().links[..|ports|] == Wires().links;
      return None;
    }

    /** Routes a packet to a node, behind the packets its port has routed so far. */
    method RoutePacket(node: int, bytes: nat, now: int) returns (arrival: int, queueDelay: int)
      requires Valid()
      modifies this
      ensures Valid() && Wires() == old(Wires())
      ensures arrival == ArrivalFor(Wires(), old(routed), node, bytes, now)
      ensures queueDelay == DelayFor(Wires(), old(routed), node, now)
      ensures routed == RoutedAfter(Wires(), old(routed), node, bytes, now)
      ensures totals == if node in Wires().links then old(totals).Plus(TotalsOf(bytes, queueDelay)) else old(totals)
      ensures match PortFor(Wires().links, node)
              case None => arrival == now + baseLatency && queueDelay == 0 && unchanged(this)
              case Some(i) =>
                var id, transfer := old(ports)[i].id, TransferTime(gbps, bytes);
                && id in old(busyUntil)
                && var busy := old(busyUntil)[id];
                && queueDelay == (if busy > now then busy - now else 0)
                && arrival == now + baseLatency + queueDelay + transfer
                && busyUntil == old(busyUntil)[id :=
                     (if busy > now + baseLatency then busy else now + baseLatency) + transfer]
                && totals == Totals(old(totals).packets + 1, old(totals).bytes + bytes,
                                    old(totals).queueDelay + queueDelay,
                                    old(totals).congestion + if busy > now then 1 else 0)
    {
      hide BusyAfter, RunTotals, SumTotals, TransferTime, Arrival, CXLSwitchNode.PortOk;
      var at := FindPort(node);
      if at.None? {
        return now + baseLatency, 0;
      }
      arrival, queueDelay := Send(at.value, bytes, now);
    }

    /** Queues a packet at a port. */
    method Send(i: nat, bytes: nat, now: int) returns (arrival: int, queueDelay: int)
      requires Valid() && i < |ports|
      modifies this
      ensures Valid() && Wires() == old(Wires())
      ensures var busy, p := BusyAfter(baseLatency, 0, old(routed[i])), PacketOf(Wires(), bytes, now);
              && arrival == Arrival(baseLatency, busy, p) && queueDelay == Delay(busy, now)
              && routed == old(routed)[i := old(routed[i]) + [p]]
              && totals == old(totals).Plus(TotalsOf(bytes, queueDelay))
      ensures var id, transfer := old(ports)[i].id, TransferTime(gbps, bytes);
              && id in old(busyUntil)
              && var busy := old(busyUntil)[id];
              && queueDelay == Max(0, busy - now) && arrival == now + baseLatency + queueDelay + transfer
              && busyUntil == old(busyUntil)[id := Max(busy, now + baseLatency) + transfer]
    {
      hide BusyAfter, RunTotals, SumTotals, TransferTime;
      var port := ports[i];
      var transfer := TransferTime(port.gbps, bytes);
      ghost var before, p := routed[i], Packet(now, transfer, bytes);
      assert PortOk(port, before);
      queueDelay := Max(0, busyUntil[port.id] - now);
      arrival := now + (baseLatency + queueDelay + transfer);
      var added := TotalsOf(bytes, queueDelay);
      Grown(baseLatency, before, p);
      SumUpdate(ports, i, port.(totals := port.totals.Plus(added)), added);
      busyUntil := busyUntil[port.id := Max(busyUntil[port.id], now + baseLatency) + transfer];
      routed := routed[i := before + [p]];
      ports := ports[i := port.(totals := port.totals.Plus(added))];
      totals := totals.Plus(added);
      assert Wires().links == old(Wires()).links;
    }
  }

  lemma {:induction false} Grown(base: int, ps: seq<Packet>, p: Packet)
    ensures BusyAfter(base, 0, ps + [p]) == NextBusy(base, BusyAfter(base, 0, ps), p)
    ensures RunTotals(base, ps + [p]) ==
              RunTotals(base, ps).Plus(TotalsOf(p.bytes, Delay(BusyAfter(base, 0, ps), p.now)))
  {
    assert Init(ps + [p]) == ps;
  }
}
