/** The trace-driven KV-page scheduler (scripts/host_os_scheduler.py, HostOSScheduler). */
module Scheduler {
  import opened Wrappers
  import opened PageTable
  import opened Migrator
  import opened Balancer
  import opened Trace
  import opened SchedulerRun

  function Truncated(lines: seq<TraceLine>, maxLines: int): seq<TraceLine> {
    if 0 < maxLines < |lines| then lines[..maxLines] else lines
  }

  class HostOSScheduler {
    const pageTable: GlobalKVPageTable
    const balancer: LoadBalancer
    const migrator: DynamicMigrator

    var activeRequests: Lists
    var layout: Option<bool>
    var timeline: seq<Sample>

    /** The parts are in order and wired to each other. */
    ghost predicate Ready()
      reads this, pageTable, balancer, migrator
    {
      && pageTable.Valid() && balancer.Valid() && migrator.Logged()
      && migrator.pageTable == pageTable && migrator.bandwidthGbps > 0.0
      && balancer.numNodes == pageTable.numNodes
    }

    ghost predicate Valid()
      reads this, pageTable, balancer, migrator
    {
      && Ready()
      && Sound(Owners(pageTable.table), activeRequests) && SharedHome(pageTable.table, balancer.sharedNode)
    }

    function Settings(interval: nat): Config {
      Config(balancer.Settings(), pageTable.pagesPerNode, migrator.imbalanceThreshold, migrator.batchSize, interval)
    }

    /** The state of a run whose counters are `tally`. */
    function Now(tally: Tally): State
      reads this, pageTable, balancer, migrator
    {
      State(pageTable.Contents(), activeRequests, layout, balancer.Contents(), migrator.migrations, timeline, tally)
    }

    ghost predicate InRun(interval: nat, tally: Tally)
      reads this, pageTable, balancer, migrator
    {
      Ready() && Fits(Settings(interval), Now(tally))
    }

    constructor (numNodes: nat, pagesPerNode: nat, sharedNode: nat, policy: AllocationPolicy, bandwidthGbps: real)
      requires 2 <= numNodes && sharedNode < numNodes && bandwidthGbps > 0.0
      ensures Valid() && fresh(pageTable) && fresh(balancer) && fresh(migrator)
      ensures pageTable.table == map[] && activeRequests == map[] && layout == None && timeline == []
      ensures pageTable.numNodes == numNodes && pageTable.pagesPerNode == pagesPerNode
      ensures migrator.bandwidthGbps == bandwidthGbps && migrator.migrations == []
      ensures forall interval: nat ::
                Settings(interval) ==
                Config(Rule(numNodes, policy, 0.85, sharedNode), pagesPerNode, 0.2, 64, interval)
    {
      var pages := new GlobalKVPageTable(numNodes, pagesPerNode);
      pageTable := pages;
      balancer := new LoadBalancer(numNodes, policy, 0.85, sharedNode);
      migrator := new DynamicMigrator(pages, bandwidthGbps, 0.2, 64);
      activeRequests, layout, timeline := map[], None, [];
    }

    /** Whether a page is a shared prefix page; the layout of the trace is looked up once and kept. */
    method DetectShared(addr: int, lines: seq<TraceLine>) returns (isShared: bool)
      modifies this`layout
      ensures layout == Some(LayoutOf(old(layout), lines))
      ensures isShared <==> SharedAddress(addr) && LayoutOf(old(layout), lines)
    {
      if layout == None {
        var found := DetectLayout(lines);
        layout := Some(found);
      }
      isShared := SharedAddress(addr) && layout.value;
    }

    /** One attempt to give a request a new page, on the node chosen for it. It fails exactly if that node is full. */
    method AllocateFor(l: TraceLine, timestamp: int, lines: seq<TraceLine>, ghost interval: nat, ghost tally: Tally)
      returns (page: Option<nat>)
      requires InRun(interval, tally) && l.Req() in activeRequests
      modifies this`activeRequests, this`layout, pageTable, balancer
      ensures Ready() && Now(tally) == Attempted(Settings(interval), old(Now(tally)), lines, l, timestamp)
      ensures page == if old(TargetFull(Settings(interval), Now(tally), lines, l)) then None
                      else Some(old(pageTable.nextVirtual))
    {
      hide Books.Ok, Chooses, LayoutOf, SharedAddress, NextPhys, Taken, Added, OneMore;
      var r := l.Req();
      var isShared := DetectShared(l.addr, lines);
      ghost var balance := balancer.Contents();
      var node := balancer.SelectNode(r, isShared);
      ChosenIs(balancer.Settings(), balance, r, isShared, node);
      var p := pageTable.AllocatePage(node, r, isShared, timestamp);
      if p.None? {
        return None;
      }
      page := Some(p.value.virt);
      activeRequests := activeRequests[r := activeRequests[r] + [p.value.virt]];
      balancer.RecordAllocation(r, node);
    }

    /** A request seen for the first time in this trace starts with an empty list. */
    method Admit(r: int, timestamp: int, ghost interval: nat, tally: Tally) returns (tally': Tally)
      requires InRun(interval, tally)
      modifies this`activeRequests
      ensures InRun(interval, tally') && Now(tally') == Admitted(old(Now(tally)), r, timestamp)
      ensures r in tally'.firstSeen
    {
      hide Books.Ok;
      tally' := tally;
      if r !in tally.firstSeen {
        tally' := tally.(firstSeen := tally.firstSeen[r := timestamp]);
        activeRequests := activeRequests[r := []];
      }
    }

    /** Counts a token, and at the first token of each block makes one attempt to allocate a page. */
    method WriteToken(l: TraceLine, timestamp: int, lines: seq<TraceLine>, ghost interval: nat, tally: Tally)
      returns (tally': Tally)
      requires InRun(interval, tally) && l.Req() in tally.firstSeen
      modifies this`activeRequests, this`layout, pageTable, balancer
      ensures Ready() && Now(tally') == Written(Settings(interval), old(Now(tally)), lines, l, timestamp)
    {
      hide Books.Ok, Attempted;
      var r := l.Req();
      tally' := CountToken(tally, r);
      if Get(tally'.tokens, r) % KV_BLOCK_TOKENS == 1 {
        var _ := AllocateFor(l, timestamp, lines, interval, tally');
      }
    }

    /** A read is recorded on the most recent page of the request, if it has one. */
    method ReadToken(r: int, timestamp: int, ghost tally: Tally)
      requires Ready()
      modifies pageTable
      ensures Ready() && Now(tally) == ReadDone(old(Now(tally)), r, timestamp)
    {
      hide Books.Ok, Touched;
      if r in activeRequests && activeRequests[r] != [] {
        pageTable.RecordAccess(Last(activeRequests[r]), timestamp);
      }
    }

    /** The balancer sees the page counts from before the migration that follows. */
    method RefreshUtilization()
      requires Ready()
      modifies balancer`utilization
      ensures Ready()
      ensures balancer.Contents() ==
                old(balancer.Contents()).(utilization := Utils(pageTable.nodePages, pageTable.pagesPerNode))
    {
      hide Books.Ok, Util;
      for n := 0 to pageTable.numNodes
        invariant balancer.Valid()
        invariant forall k :: 0 <= k < n ==>
                    balancer.utilization[k] == Util(|pageTable.nodePages[k]|, pageTable.pagesPerNode)
      {
        balancer.UpdateUtilization(n, Util(|pageTable.nodePages[n]|, pageTable.pagesPerNode));
      }
    }

    /** The periodic check: utilisations, one round of migration, one sample. */
    method Rebalance(timestamp: int, line: nat) returns (ghost moves: seq<MigrationEvent>)
      requires Ready()
      modifies this`timeline, pageTable, balancer, migrator
      ensures Ready() && migrator.migrations == old(migrator.migrations) + moves
      ensures var u := Utils(old(pageTable.nodePages), pageTable.pagesPerNode);
              && balancer.Contents() == old(balancer.Contents()).(utilization := u)
              && timeline == old(timeline) + [Sample(timestamp, line, u, |moves|)]
      ensures RoundMade(migrator.imbalanceThreshold, migrator.batchSize, pageTable.pagesPerNode, timestamp,
                        old(pageTable.Contents()), moves, pageTable.Contents())
    {
      hide Books.Ok, RoundMade, Utils;
      RefreshUtilization();
      var utils := balancer.utilization;
      var migrated;
      migrated, moves := migrator.CheckAndMigrate(timestamp);
      timeline := timeline + [Sample(timestamp, line, utils, migrated)];
    }

    /** Counts the line and makes the periodic check when it is due. */
    method EndLine(timestamp: int, interval: nat, tally: Tally) returns (tally': Tally)
      requires Ready() && interval > 0
      modifies this`timeline, pageTable, balancer, migrator
      ensures Ready() && Ended(Settings(interval), old(Now(tally)), Now(tally'), timestamp)
    {
      hide Books.Ok, RoundMade, Utils;
      tally' := tally.(processed := tally.processed + 1);
      if tally'.processed % interval == 0 {
        ghost var moves := Rebalance(timestamp, tally'.processed);
        tally' := tally'.(checks := tally'.checks + 1);
        assert moves == migrator.migrations[|old(migrator.migrations)|..];
      }
    }

    /** One line of the trace. */
    method ProcessLine(lines: seq<TraceLine>, l: TraceLine, interval: nat, tally: Tally) returns (tally': Tally)
      requires InRun(interval, tally)
      modifies this, pageTable, balancer, migrator
      ensures InRun(interval, tally')
      ensures LineStep(Settings(interval), lines, old(Now(tally)), Now(tally'), l)
    {
      hide Books.Ok, Admitted, Written, ReadDone, Ended;
      tally' := tally;
      if !l.Kept() {
        return;
      }
      var timestamp := l.Time(tally.processed * 100);
      tally' := Admit(l.Req(), timestamp, interval, tally');
      if l.IsWrite() {
        tally' := WriteToken(l, timestamp, lines, interval, tally');
      } else if l.IsRead() {
        ReadToken(l.Req(), timestamp, tally');
      }
      tally' := EndLine(timestamp, interval, tally');
      SeenHaveLists(Settings(interval), old(Now(tally)), Now(tally'), lines, l);
    }

    /**
     * A whole trace. `maxLines` cuts it short when positive, and every `interval` lines the load is
     * checked. The states gone through are a run of the state machine. Each block of tokens of a request has
     * given it one page, unless the node chosen for it was full then; the table has grown by exactly the
     * pages in the lists of the trace's requests; each read that reached a page has been counted once. If
     * the blocks of the trace would fit on one node together with the earlier pages, nothing fails: every
     * request has all its pages, and every read of a request that had written reached one.
     */
    method ProcessTrace(lines: seq<TraceLine>, interval: nat, maxLines: int)
      returns (tally: Tally, ghost run: seq<State>)
      requires Valid() && interval > 0
      modifies this, pageTable, balancer, migrator
      ensures Valid()
      ensures var kept, cfg := Truncated(lines, maxLines), Settings(interval);
              && RunTo(cfg, kept, run, |kept|) && run[0] == old(Now(FRESH)) && run[|kept|] == Now(tally)
              && (forall r :: r in Requests(kept) ==>
                    && r in activeRequests
                    && |activeRequests[r]| + Failures(cfg, kept, run, |kept|, r) == Blocks(Tokens(kept, r)))
              && AllAccesses(pageTable.Contents()) ==
                   AllAccesses(old(pageTable.Contents())) + ReadsDone(cfg, kept, run, |kept|)
      ensures var kept := Truncated(lines, maxLines);
              && Counted(tally, kept) && ChecksDue(tally, interval) && |timeline| == |old(timeline)| + tally.checks
              && |pageTable.table| == |old(pageTable.table)| + Held(activeRequests, Requests(kept))
              && (forall r :: r !in Requests(kept) ==> ListOf(activeRequests, r) == ListOf(old(activeRequests), r))
              && (Complete(Owners(pageTable.table), activeRequests) <==>
                    && Complete(Owners(old(pageTable.table)), old(activeRequests))
                    && forall r :: r in Requests(kept) ==> ListOf(old(activeRequests), r) == [])
      ensures var kept := Truncated(lines, maxLines);
              |old(pageTable.table)| + TotalBlocks(kept) <= pageTable.pagesPerNode ==>
                && (forall r :: r in Requests(kept) ==>
                      r in activeRequests && |activeRequests[r]| == Blocks(Tokens(kept, r)))
                && AllAccesses(pageTable.Contents()) == AllAccesses(old(pageTable.Contents())) + LateReads(kept)
    {
      hide Books.Ok, Complete, Held, AllAccesses, Failures, ReadsDone, Requests, Tokens, Blocks, TotalBlocks, LateReads,
           Counted, ChecksDue, LineStep, Sound, SharedHome, Owners;
      var kept := Truncated(lines, maxLines);
      tally, run := ProcessLines(kept, interval);
      RunResult(Settings(interval), kept, run);
      RunResultAmple(Settings(interval), kept, run);
    }

    method ProcessLines(lines: seq<TraceLine>, interval: nat) returns (tally: Tally, ghost run: seq<State>)
      requires Valid() && interval > 0
      modifies this, pageTable, balancer, migrator
      ensures Ready() && Sane(Settings(interval), old(Now(FRESH)))
      ensures RunTo(Settings(interval), lines, run, |lines|) && run[0] == old(Now(FRESH)) && run[|lines|] == Now(tally)
    {
      hide Books.Ok, LineStep, Sound, SharedHome, Owners;
      tally := FRESH;
      run := [Now(tally)];
      RunStart(Settings(interval), lines, Now(tally));
      for i := 0 to |lines|
        invariant InRun(interval, tally)
        invariant |run| == i + 1 && run[0] == old(Now(FRESH)) && run[i] == Now(tally)
        invariant RunTo(Settings(interval), lines, run, i)
      {
        tally := ProcessLine(lines, lines[i], interval, tally);
        RunOn(Settings(interval), lines, run, i, Now(tally));
        run := run + [Now(tally)];
      }
    }
  }
}
