/** What a scheduler run (scripts/host_os_scheduler.py) says about requests and checks, line by line. */
module SchedulerLaws {
  import opened Wrappers
  import Arithmetic
  import opened PageTable
  import opened Migrator
  import opened Balancer
  import opened Trace
  import opened SchedulerRun

  // ------------------------------------------------------------ what one more line adds to a trace

  /**
   * Lines of fewer than three fields count for nothing. K and V lines are tokens of their request, RK
   * and RV lines are reads; the request is the fifth field, and 0 without one.
   */
  lemma {:induction false} OneMoreLine(lines: seq<TraceLine>, l: TraceLine, r: int)
    ensures var req, kept := if l.arity > 4 then l.req else 0, l.arity >= 3;
            var wrote, read := kept && (l.op == "K" || l.op == "V"), kept && (l.op == "RK" || l.op == "RV");
            && Tokens(lines + [l], r) == Tokens(lines, r) + (if wrote && req == r then 1 else 0)
            && WriteCount(lines + [l]) == WriteCount(lines) + (if wrote then 1 else 0)
            && KeptCount(lines + [l]) == KeptCount(lines) + (if kept then 1 else 0)
            && Requests(lines + [l]) ==
               Requests(lines) + (if kept && req !in Requests(lines) then [req] else [])
            && LateReads(lines + [l]) == LateReads(lines) + (if read && Tokens(lines, req) > 0 then 1 else 0)
            && BlockStarts(lines + [l]) == BlockStarts(lines) + if wrote && Tokens(lines, req) % 16 == 0 then 1 else 0
  {
    assert Init(lines + [l]) == lines;
    var n := Tokens(lines, l.Req());
    Arithmetic.NextRemainder(n, 16);
  }

  /** The blocks are the least number of sixteens that holds all tokens. */
  lemma {:induction false} BlocksHold(tokens: nat)
    ensures tokens <= 16 * Blocks(tokens) < tokens + 16
  {
  }

  // ------------------------------------------------------------ when a request was first seen

  /** The time of a line: its fourth field, or 100 for each line counted before it. */
  function TimeOf(before: seq<TraceLine>, l: TraceLine): int {
    if l.arity > 3 then l.timestamp else 100 * KeptCount(before)
  }

  /** The time of the first line of a request. */
  function FirstTime(lines: seq<TraceLine>, r: int): int
    requires r in Requests(lines)
  {
    if r in Requests(Init(lines)) then FirstTime(Init(lines), r) else TimeOf(Init(lines), Last(lines))
  }

  /** The time kept for each request is that of its first line. */
  lemma {:induction false} RunFirstSeen(cfg: Config, lines: seq<TraceLine>, run: seq<State>, n: nat, r: int)
    requires RunTo(cfg, lines, run, n) && run[0].tally == FRESH && r in Requests(lines[..n])
    ensures r in run[n].tally.firstSeen && run[n].tally.firstSeen[r] == FirstTime(lines[..n], r)
  {
    hide Books.Ok, LineStep, Counted, Requests;
    RunCounts(cfg, lines, run, n);
    SeenAsCounted(run[n].tally, lines[..n], r);
    NoRequests(lines);
    if n > 0 {
      RunPrefix(cfg, lines, run, n);
      RunCounts(cfg, lines, run, n - 1);
      SeenAsCounted(run[n - 1].tally, lines[..n - 1], r);
      LineSeen(cfg, run[n - 1], run[n], lines, lines[n - 1], r);
      if r in Requests(lines[..n - 1]) {
        RunFirstSeen(cfg, lines, run, n - 1, r);
      } else {
        CountedLines(run[n - 1].tally, lines[..n - 1]);
      }
    }
  }

  lemma {:induction false} NoRequests(lines: seq<TraceLine>)
    ensures Requests(lines[..0]) == []
  {
    assert lines[..0] == [];
  }

  lemma {:induction false} CountedLines(tally: Tally, prefix: seq<TraceLine>)
    requires Counted(tally, prefix)
    ensures tally.processed == KeptCount(prefix)
  {
  }

  /** One line records the time of its request, if that is not known yet. */
  lemma {:induction false} LineSeen(cfg: Config, s: State, s': State, lines: seq<TraceLine>, l: TraceLine, r: int)
    requires Fits(cfg, s) && LineStep(cfg, lines, s, s', l)
    requires r in s'.tally.firstSeen
    ensures if r in s.tally.firstSeen then s'.tally.firstSeen[r] == s.tally.firstSeen[r]
            else s'.tally.firstSeen[r] == if l.arity > 3 then l.timestamp else 100 * s.tally.processed
  {
    hide Books.Ok, Ended, Target, SharedPage, Attempted, TargetFull, Touched, CountToken;
    if l.Kept() {
      var time := l.Time(s.tally.processed * 100);
      var t := AfterOp(cfg, s, lines, l, time);
      EndTally(cfg, t, s', time);
      OpSeen(cfg, s, lines, l, time);
    }
  }

  lemma {:induction false} OpSeen(cfg: Config, s: State, lines: seq<TraceLine>, l: TraceLine, timestamp: int)
    requires Fits(cfg, s) && l.Kept()
    ensures AfterOp(cfg, s, lines, l, timestamp).tally.firstSeen ==
            if l.Req() in s.tally.firstSeen then s.tally.firstSeen else s.tally.firstSeen[l.Req() := timestamp]
  {
    hide Books.Ok, Target, SharedPage, Attempted, TargetFull, Touched;
    var t := Admitted(s, l.Req(), timestamp);
    if l.IsWrite() {
      var u := t.(tally := CountToken(t.tally, l.Req()));
      SameTarget(cfg, s, u, lines, l);
      if Due(s, l) {
        AttemptEffect(cfg, u, lines, l, timestamp);
      }
    }
  }

  // ------------------------------------------------------------ when the samples are taken

  /** The k-th sample of a run is taken at the line that makes k + 1 full intervals. */
  lemma {:induction false} RunSamples(cfg: Config, lines: seq<TraceLine>, run: seq<State>, n: nat, k: nat)
    requires RunTo(cfg, lines, run, n) && run[0].tally == FRESH && k < run[n].tally.checks
    ensures |run[0].timeline| + k < |run[n].timeline|
    ensures run[n].timeline[|run[0].timeline| + k].line == (k + 1) * cfg.interval
  {
    hide Books.Ok, LineStep, Counted, RoundMade;
    RunCounts(cfg, lines, run, n);
    if n > 0 {
      RunPrefix(cfg, lines, run, n);
      RunCounts(cfg, lines, run, n - 1);
      LineCounts(cfg, run[n - 1], run[n], lines, lines[n - 1]);
      LineSampled(cfg, run[n - 1], run[n], lines, lines[n - 1]);
      if k < run[n - 1].tally.checks {
        RunSamples(cfg, lines, run, n - 1, k);
      } else {
        Arithmetic.NextRemainder(run[n - 1].tally.processed, cfg.interval);
        Arithmetic.DivMod(run[n].tally.processed, cfg.interval);
      }
    }
  }

  lemma {:induction false} LineSampled(cfg: Config, s: State, s': State, lines: seq<TraceLine>, l: TraceLine)
    requires Fits(cfg, s) && LineStep(cfg, lines, s, s', l)
    ensures s.timeline <= s'.timeline
    ensures |s'.timeline| > |s.timeline| ==>
              && |s'.timeline| == |s.timeline| + 1 && s'.timeline[|s.timeline|].line == s.tally.processed + 1
              && l.Kept() && (s.tally.processed + 1) % cfg.interval == 0
  {
    hide Books.Ok, AfterOp, RoundMade, Utils;
    if l.Kept() {
      OpTally(cfg, s, lines, l, l.Time(s.tally.processed * 100));
    }
  }
}
