/** The stand-alone trace splitter (scripts/split_trace_by_node.py, split_trace). */
module TraceSplit {
  import opened Wrappers
  import opened Trace
  import opened Splitting

  datatype NodeStats = NodeStats(local: nat, remoteIn: nat, remoteOut: nat)

  datatype SplitResult = SplitResult(traces: seq<seq<LocalLine>>, crossNode: seq<CrossRead>, perNode: seq<NodeStats>,
                                     totalLines: nat, sharedAccesses: nat, privateAccesses: nat, crossNodeReads: nat)

  /** Traces and statistics are those of the rule. */
  ghost predicate IsSplit(rule: Rule, lines: seq<TraceLine>, r: SplitResult)
    requires rule.privates != []
  {
    var crossed := Crossings(rule, lines);
    && |r.traces| == |r.perNode| && r.crossNode == crossed && r.crossNodeReads == |crossed|
    && (forall n :: 0 <= n < |r.traces| ==>
          && r.traces[n] == Entries(rule, lines, n)
          && r.perNode[n] == NodeStats(|r.traces[n]|, CountTo(crossed, n), CountFrom(crossed, n)))
    && r.totalLines == KeptCount(lines) == r.sharedAccesses + r.privateAccesses
    && r.sharedAccesses == SharedLines(rule, lines)
  }

  function Bump(s: seq<NodeStats>, node: nat, local: nat, remoteIn: nat, remoteOut: nat): seq<NodeStats>
    requires node < |s|
  {
    s[node := NodeStats(s[node].local + local, s[node].remoteIn + remoteIn, s[node].remoteOut + remoteOut)]
  }

  /** The split after one more valid line. */
  function Added(rule: Rule, l: TraceLine, r: SplitResult): SplitResult
    requires rule.Ok(|r.traces|) && |r.perNode| == |r.traces|
  {
    var t := rule.Target(l);
    var more := r.(traces := r.traces[t := r.traces[t] + [Local(l)]], perNode := Bump(r.perNode, t, 1, 0, 0),
                   totalLines := r.totalLines + 1,
                   sharedAccesses := r.sharedAccesses + (if rule.IsShared(l) then 1 else 0),
                   privateAccesses := r.privateAccesses + if rule.IsShared(l) then 0 else 1);
    if !rule.Crosses(l) then more
    else more.(crossNode := more.crossNode + [rule.Cross(l)], crossNodeReads := more.crossNodeReads + 1,
               perNode := Bump(Bump(more.perNode, rule.shared, 0, 0, 1), rule.Home(l), 0, 1, 0))
  }

  lemma {:induction false} AddedNode(rule: Rule, l: TraceLine, r: SplitResult, n: nat)
    requires rule.Ok(|r.traces|) && |r.perNode| == |r.traces| && n < |r.traces|
    ensures var a, crosses := Added(rule, l, r), rule.Crosses(l);
            && |a.traces| == |a.perNode| == |r.traces|
            && a.traces[n] == r.traces[n] + (if rule.Target(l) == n then [Local(l)] else [])
            && a.perNode[n] == NodeStats(r.perNode[n].local + (if rule.Target(l) == n then 1 else 0),
                                         r.perNode[n].remoteIn + (if crosses && rule.Home(l) == n then 1 else 0),
                                         r.perNode[n].remoteOut + if crosses && rule.shared == n then 1 else 0)
  {
  }

  lemma {:induction false} AddedIsSplit(rule: Rule, lines: seq<TraceLine>, i: nat, r: SplitResult)
    requires i < |lines| && rule.Ok(|r.traces|) && IsSplit(rule, lines[..i], r)
    ensures IsSplit(rule, lines[..i + 1], if lines[i].Kept() then Added(rule, lines[i], r) else r)
  {
    hide IsSplit, Added;
    var l, longer := lines[i], lines[..i + 1];
    assert Init(longer) == lines[..i] && Last(longer) == l;
    if l.Kept() {
      AddedLine(rule, longer, r);
    } else {
      SkippedLine(rule, longer, r);
    }
  }

  lemma {:induction false} SkippedLine(rule: Rule, lines: seq<TraceLine>, r: SplitResult)
    requires lines != [] && !Last(lines).Kept() && rule.privates != [] && IsSplit(rule, Init(lines), r)
    ensures IsSplit(rule, lines, r)
  {
    hide Rule.Target, Rule.Crosses, Rule.Cross, Rule.IsShared, Local, CountTo, CountFrom;
    assert Crossings(rule, lines) == Crossings(rule, Init(lines)) + [];
    assert Crossings(rule, lines) == Crossings(rule, Init(lines));
    forall n | 0 <= n < |r.traces|
      ensures Entries(rule, lines, n) == Entries(rule, Init(lines), n)
    {
      assert Entries(rule, lines, n) == Entries(rule, Init(lines), n) + [];
    }
  }

  lemma {:induction false} AddedLine(rule: Rule, lines: seq<TraceLine>, r: SplitResult)
    requires lines != [] && Last(lines).Kept() && rule.Ok(|r.traces|) && IsSplit(rule, Init(lines), r)
    ensures IsSplit(rule, lines, Added(rule, Last(lines), r))
  {
    var l, before, after := Last(lines), Crossings(rule, Init(lines)), Crossings(rule, lines);
    if rule.Crosses(l) {
      CountedOnce(before, rule.Cross(l));
      assert after == before + [rule.Cross(l)];
    } else {
      assert after == before;
    }
    AddedTotals(rule, l, r);
    hide Added, CountTo, CountFrom;
    forall n | 0 <= n < |r.traces|
      ensures Added(rule, l, r).traces[n] == Entries(rule, lines, n)
      ensures Added(rule, l, r).perNode[n]
           == NodeStats(|Entries(rule, lines, n)|, CountTo(after, n), CountFrom(after, n))
    {
      AddedNode(rule, l, r, n);
    }
  }

  lemma {:induction false} AddedTotals(rule: Rule, l: TraceLine, r: SplitResult)
    requires rule.Ok(|r.traces|) && |r.perNode| == |r.traces|
    ensures var a := Added(rule, l, r);
            && |a.traces| == |a.perNode| == |r.traces| && a.totalLines == r.totalLines + 1
            && a.sharedAccesses + a.privateAccesses == r.sharedAccesses + r.privateAccesses + 1
            && a.sharedAccesses == r.sharedAccesses + (if rule.IsShared(l) then 1 else 0)
            && a.crossNode == r.crossNode + (if rule.Crosses(l) then [rule.Cross(l)] else [])
            && a.crossNodeReads == r.crossNodeReads + if rule.Crosses(l) then 1 else 0
  {
  }

  lemma {:induction false} CountedOnce(before: seq<CrossRead>, c: CrossRead)
    ensures forall k :: CountTo(before + [c], k) == CountTo(before, k) + if c.dst == k then 1 else 0
    ensures forall k :: CountFrom(before + [c], k) == CountFrom(before, k) + if c.src == k then 1 else 0
  {
    assert Init(before + [c]) == before;
  }

  /** One line of the loop. */
  method AddLine(l: TraceLine, shared: nat, privates: seq<nat>, r: SplitResult,
                 ghost rule: Rule) returns (r': SplitResult)
    requires rule.Ok(|r.traces|) && |r.perNode| == |r.traces|
    requires rule.shared == shared && rule.privates == privates && rule.lowIsShared && !rule.skipSelf
    ensures r' == Added(rule, l, r)
  {
    r' := r;
    if SharedK(l.addr) || SharedV(l.addr) {
      r' := r'.(traces := r'.traces[shared := r'.traces[shared] + [Local(l)]],
                perNode := Bump(r'.perNode, shared, 1, 0, 0), sharedAccesses := r'.sharedAccesses + 1);
      if l.StartsWithR() {
        var requesting := privates[l.Req() % |privates|];
        r' := r'.(crossNode := r'.crossNode + [CrossRead(shared, requesting, l.addr, l.Time(0), l.Req())],
                  crossNodeReads := r'.crossNodeReads + 1, perNode := Bump(r'.perNode, shared, 0, 0, 1));
        r' := r'.(perNode := Bump(r'.perNode, requesting, 0, 1, 0));
      }
    } else {
      var target := privates[l.Req() % |privates|];
      r' := r'.(traces := r'.traces[target := r'.traces[target] + [Local(l)]],
                perNode := Bump(r'.perNode, target, 1, 0, 0), privateAccesses := r'.privateAccesses + 1);
    }
    r' := r'.(totalLines := r'.totalLines + 1);
  }

  /**
   * Splits a trace by the stand-alone rule. Its own validation always succeeds: the lengths of the
   * node traces add up to the number of valid lines.
   */
  method SplitTrace(config: seq<NodeConfig>, numNodes: nat, lines: seq<TraceLine>) returns (r: SplitResult)
    requires SplitRule(config, numNodes).Ok(numNodes)
    ensures |r.traces| == numNodes && IsSplit(SplitRule(config, numNodes), lines, r)
    ensures r.totalLines == SumOver(SplitRule(config, numNodes), lines, numNodes)
  {
    hide IsSplit, Added, IdsOf;
    var rule := SplitRule(config, numNodes);
    r := SplitResult(seq(numNodes, _ => []), [], seq(numNodes, _ => NodeStats(0, 0, 0)), 0, 0, 0, 0);
    StartSplit(rule, lines, r);
    for i := 0 to |lines|
      invariant |r.traces| == numNodes && |r.perNode| == numNodes && IsSplit(rule, lines[..i], r)
    {
      AddedIsSplit(rule, lines, i, r);
      if lines[i].Kept() {
        AddedTotals(rule, lines[i], r);
        r := AddLine(lines[i], rule.shared, rule.privates, r, rule);
      }
    }
    assert lines[..|lines|] == lines;
    OneNodeEach(rule, lines, numNodes);
    TotalIsKept(rule, lines, r);
  }

  lemma {:induction false} StartSplit(rule: Rule, lines: seq<TraceLine>, r: SplitResult)
    requires rule.privates != [] && |r.traces| == |r.perNode| && r.crossNode == []
    requires r.totalLines == r.sharedAccesses == r.privateAccesses == r.crossNodeReads == 0
    requires forall n :: 0 <= n < |r.traces| ==> r.traces[n] == [] && r.perNode[n] == NodeStats(0, 0, 0)
    ensures IsSplit(rule, lines[..0], r)
  {
    assert lines[..0] == [];
  }

  lemma {:induction false} TotalIsKept(rule: Rule, lines: seq<TraceLine>, r: SplitResult)
    requires rule.privates != [] && IsSplit(rule, lines, r)
    ensures r.totalLines == KeptCount(lines)
  {
  }
}
