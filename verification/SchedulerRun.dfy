/** A run of the KV-page scheduler over a trace, as a state machine (scripts/host_os_scheduler.py, process_trace). */
module SchedulerRun {
  import opened Wrappers
  import opened PageTable
  import opened Compaction
  import opened Migrator
  import opened Balancer
  import opened Trace
  import Arithmetic

  const KV_BLOCK_TOKENS: nat := 16

  type Lists = map<int, seq<nat>>

  // ------------------------------------------------------------ what the trace says

  /** The tokens of a request: its K and V writes. */
  function Tokens(lines: seq<TraceLine>, r: int): nat {
    if lines == [] then 0
    else Tokens(Init(lines), r) + if Last(lines).Kept() && Last(lines).IsWrite() && Last(lines).Req() == r then 1 else 0
  }

  /** The requests of the trace, in the order in which they are first seen. */
  function Requests(lines: seq<TraceLine>): (rs: seq<int>)
    ensures forall i, j :: 0 <= i < j < |rs| ==> rs[i] != rs[j]
  {
    if lines == [] then []
    else
      var rs, l := Requests(Init(lines)), Last(lines);
      if l.Kept() && l.Req() !in rs then rs + [l.Req()] else rs
  }

  function WriteCount(lines: seq<TraceLine>): nat {
    if lines == [] then 0
    else WriteCount(Init(lines)) + if Last(lines).Kept() && Last(lines).IsWrite() then 1 else 0
  }

  /** One allocation attempt per block of tokens, the last block possibly begun only. */
  function Blocks(tokens: nat): nat {
    (tokens + KV_BLOCK_TOKENS - 1) / KV_BLOCK_TOKENS
  }

  lemma {:induction false} BlocksStep(tokens: nat)
    ensures Blocks(tokens + 1) == Blocks(tokens) + if (tokens + 1) % KV_BLOCK_TOKENS == 1 then 1 else 0
  {
  }

  /** The line carries the first token of a block of its request. */
  predicate StartsBlock(before: seq<TraceLine>, l: TraceLine) {
    l.Kept() && l.IsWrite() && (Tokens(before, l.Req()) + 1) % KV_BLOCK_TOKENS == 1
  }

  function BlockStarts(lines: seq<TraceLine>): nat {
    if lines == [] then 0
    else BlockStarts(Init(lines)) + if StartsBlock(Init(lines), Last(lines)) then 1 else 0
  }

  /** The reads of requests that have written a token before. */
  function LateReads(lines: seq<TraceLine>): nat {
    if lines == [] then 0
    else
      var l := Last(lines);
      LateReads(Init(lines)) + if l.Kept() && l.IsRead() && Tokens(Init(lines), l.Req()) > 0 then 1 else 0
  }

  function Total(f: int -> nat, rs: seq<int>): nat {
    if rs == [] then 0 else Total(f, Init(rs)) + f(Last(rs))
  }

  /** Changing a function at one request changes its total by as much, if the request is there. */
  lemma {:induction false} TotalStep(f: int -> nat, g: int -> nat, rs: seq<int>, r: int, d: nat)
    requires forall i, j :: 0 <= i < j < |rs| ==> rs[i] != rs[j]
    requires (forall q :: q != r ==> g(q) == f(q)) && g(r) == f(r) + d
    ensures Total(g, rs) == Total(f, rs) + if r in rs then d else 0
  {
    if rs != [] {
      TotalStep(f, g, Init(rs), r, d);
    }
  }

  function BlocksOf(lines: seq<TraceLine>): int -> nat {
    r => Blocks(Tokens(lines, r))
  }

  /** The blocks of all requests of the trace. */
  function TotalBlocks(lines: seq<TraceLine>): nat {
    Total(BlocksOf(lines), Requests(lines))
  }

  lemma {:induction false} TotalAppend(f: int -> nat, rs: seq<int>, r: int)
    ensures Total(f, rs + [r]) == Total(f, rs) + f(r)
  {
    assert Init(rs + [r]) == rs;
  }

  /** A request that is not in the trace has no tokens. */
  lemma {:induction false} UnseenTokens(lines: seq<TraceLine>, r: int)
    requires r !in Requests(lines)
    ensures Tokens(lines, r) == 0
  {
    if lines != [] {
      UnseenTokens(Init(lines), r);
    }
  }

  /** The lines that start a block are as many as the blocks of all requests. */
  lemma {:induction false} BlockStartsTotal(lines: seq<TraceLine>)
    ensures BlockStarts(lines) == TotalBlocks(lines)
  {
    if lines != [] {
      var before, l := Init(lines), Last(lines);
      BlockStartsTotal(before);
      BlocksLine(before, l, lines);
    }
  }

  lemma {:induction false} BlocksLine(before: seq<TraceLine>, l: TraceLine, lines: seq<TraceLine>)
    requires lines != [] && before == Init(lines) && l == Last(lines)
    ensures TotalBlocks(lines) == TotalBlocks(before) + if StartsBlock(before, l) then 1 else 0
  {
    hide Blocks, Total;
    var f, g := BlocksOf(before), BlocksOf(lines);
    var r, rs := l.Req(), Requests(before);
    BlocksStep(Tokens(before, r));
    TotalStep(f, g, rs, r, g(r) - f(r));
    if l.Kept() && r !in rs {
      UnseenTokens(before, r);
      BlocksZero();
      TotalAppend(g, rs, r);
    }
  }

  lemma {:induction false} BlocksZero()
    ensures Blocks(0) == 0 && forall n: nat :: Blocks(n) > 0 <==> n > 0
  {
  }

  // ------------------------------------------------------------ the page lists of the requests

  function Owners(table: Table): map<nat, int> {
    map v | v in table :: table[v].req
  }

  function ListOf(active: Lists, r: int): seq<nat> {
    if r in active then active[r] else []
  }

  function Get(m: map<int, nat>, r: int): nat {
    if r in m then m[r] else 0
  }

  function Sizes(active: Lists): int -> nat {
    r => |ListOf(active, r)|
  }

  /** The pages in the lists of the given requests. */
  function Held(active: Lists, rs: seq<int>): nat {
    Total(Sizes(active), rs)
  }

  /** Lists hold live pages of their request, each once. */
  ghost predicate Sound(owners: map<nat, int>, active: Lists) {
    && (forall r, i :: r in active && 0 <= i < |active[r]| ==> active[r][i] in owners && owners[active[r][i]] == r)
    && (forall r, i, j :: r in active && 0 <= i < j < |active[r]| ==> active[r][i] != active[r][j])
  }

  /** Every live page is in the list of its owner; with soundness the lists partition the live pages. */
  ghost predicate Complete(owners: map<nat, int>, active: Lists) {
    forall v :: v in owners ==> v in ListOf(active, owners[v])
  }

  /** Sound and complete lists partition the live pages by owner. */
  lemma {:induction false} ListsPartition(owners: map<nat, int>, active: Lists)
    requires Sound(owners, active)
    ensures Complete(owners, active) <==> forall v :: v in owners <==> exists r :: r in active && v in active[r]
    ensures forall q, r, v :: q in active && r in active && v in active[q] && v in active[r] ==> q == r
  {
    forall q, v | q in active && v in active[q]
      ensures v in owners && owners[v] == q
    {
    }
    if forall v :: v in owners <==> exists r :: r in active && v in active[r] {
      forall v | v in owners
        ensures v in ListOf(active, owners[v])
      {
        var r :| r in active && v in active[r];
      }
    } else if Complete(owners, active) {
      forall v | v in owners
        ensures exists r :: r in active && v in active[r]
      {
        assert owners[v] in active && v in active[owners[v]];
      }
      assert false;
    }
  }

  /** A request met for the first time in a trace starts with an empty list, whatever it had. */
  lemma {:induction false} ResetList(owners: map<nat, int>, active: Lists, r: int)
    requires Sound(owners, active)
    ensures Sound(owners, active[r := []])
    ensures Complete(owners, active[r := []]) <==> Complete(owners, active) && ListOf(active, r) == []
  {
    hide Sound;
    ResetSound(owners, active, r);
    if ListOf(active, r) != [] {
      DropsPages(owners, active, r);
    } else {
      assert forall q :: ListOf(active[r := []], q) == ListOf(active, q);
    }
  }

  lemma {:induction false} ResetSound(owners: map<nat, int>, active: Lists, r: int)
    requires Sound(owners, active)
    ensures Sound(owners, active[r := []])
  {
  }

  /** The pages of a list that is not empty stay live and are in no list any more. */
  lemma {:induction false} DropsPages(owners: map<nat, int>, active: Lists, r: int)
    requires Sound(owners, active) && ListOf(active, r) != []
    ensures !Complete(owners, active[r := []])
  {
    var v := active[r][0];
    assert v in owners && owners[v] == r && v !in ListOf(active[r := []], r);
  }

  lemma {:induction false} GrowList(owners: map<nat, int>, active: Lists, r: int, v: nat)
    requires Sound(owners, active) && v !in owners && r in active
    ensures Sound(owners[v := r], active[r := active[r] + [v]])
    ensures Complete(owners[v := r], active[r := active[r] + [v]]) <==> Complete(owners, active)
  {
    hide Sound;
    GrowSound(owners, active, r, v);
    var owners', active' := owners[v := r], active[r := active[r] + [v]];
    if Complete(owners', active') {
      forall w | w in owners
        ensures w in ListOf(active, owners[w])
      {
        assert w in ListOf(active', owners'[w]);
      }
    }
  }

  lemma {:induction false} GrowSound(owners: map<nat, int>, active: Lists, r: int, v: nat)
    requires Sound(owners, active) && v !in owners && r in active
    ensures Sound(owners[v := r], active[r := active[r] + [v]])
  {
  }

  /** The pages of a sound list are live pages of the request. */
  lemma {:induction false} LastLives(table: Table, active: Lists, r: int)
    requires Sound(Owners(table), active) && ListOf(active, r) != []
    ensures var v := Last(active[r]); v in table && table[v].req == r
  {
    assert active[r][|active[r]| - 1] in Owners(table);
  }

  /** Shared pages live on the shared node. */
  ghost predicate SharedHome(table: Table, sharedNode: nat) {
    forall v :: v in table && table[v].isShared ==> table[v].node == sharedNode
  }

  /** Migration changes neither owners nor the place of shared pages. */
  lemma {:induction false} MovedOwners(before: Table, after: Table, sharedNode: nat)
    requires OnlyMoved(before, after) && SharedHome(before, sharedNode)
    ensures Owners(after) == Owners(before) && SharedHome(after, sharedNode)
  {
  }

  /** A new page takes its place among the owners. */
  lemma {:induction false} PlacedOwners(before: Table, p: KVPage, sharedNode: nat)
    requires SharedHome(before, sharedNode) && (p.isShared ==> p.node == sharedNode)
    ensures Owners(before[p.virt := p]) == Owners(before)[p.virt := p.req]
    ensures p.virt !in before ==> p.virt !in Owners(before)
    ensures SharedHome(before[p.virt := p], sharedNode)
  {
  }

  /** Recording an access changes no owner. */
  lemma {:induction false} TouchedOwners(before: Table, v: nat, timestamp: int, sharedNode: nat)
    requires SharedHome(before, sharedNode)
    ensures Owners(Touched(before, v, timestamp)) == Owners(before)
    ensures SharedHome(Touched(before, v, timestamp), sharedNode)
  {
  }

  // ------------------------------------------------------------ the accesses recorded in the table

  /** The accesses recorded on the pages below `n`. */
  function Accesses(table: Table, n: nat): nat {
    if n == 0 then 0 else Accesses(table, n - 1) + if n - 1 in table then table[n - 1].accessCount else 0
  }

  lemma {:induction false} SameAccesses(before: Table, after: Table, n: nat)
    requires forall v :: v < n ==> (v in after <==> v in before)
    requires forall v :: v < n && v in before ==> after[v].accessCount == before[v].accessCount
    ensures Accesses(after, n) == Accesses(before, n)
  {
    if n > 0 {
      SameAccesses(before, after, n - 1);
    }
  }

  lemma {:induction false} TouchedAccesses(table: Table, v: nat, timestamp: int, n: nat)
    requires v in table
    ensures Accesses(Touched(table, v, timestamp), n) == Accesses(table, n) + if v < n then 1 else 0
  {
    if n > 0 {
      TouchedAccesses(table, v, timestamp, n - 1);
    }
  }

  // ------------------------------------------------------------ the state machine

  datatype Tally = Tally(tokens: map<int, nat>, firstSeen: map<int, int>, processed: nat, writes: nat, checks: nat)

  datatype Sample = Sample(time: int, line: nat, utilizations: seq<real>, migrated: nat)

  datatype Config = Config(rule: Rule, capacity: nat, threshold: real, batchSize: int, interval: nat)

  /** Everything a run reads or changes. */
  datatype State = State(books: Books, active: Lists, layout: Option<bool>, balance: Balance,
                         migrations: seq<MigrationEvent>, timeline: seq<Sample>, tally: Tally)

  const FRESH := Tally(map[], map[], 0, 0, 0)

  /** The accounts are in order and each request seen has a list. */
  ghost predicate Fits(cfg: Config, s: State) {
    && cfg.rule.Ok() && cfg.interval > 0
    && s.books.Ok(cfg.capacity) && s.books.Nodes() == cfg.rule.numNodes == |s.balance.utilization|
    && s.tally.firstSeen.Keys <= s.active.Keys
  }

  /** A request met for the first time in this trace starts with an empty list. */
  function Admitted(s: State, r: int, timestamp: int): State {
    if r in s.tally.firstSeen then s
    else s.(active := s.active[r := []], tally := s.tally.(firstSeen := s.tally.firstSeen[r := timestamp]))
  }

  function CountToken(tally: Tally, r: int): Tally {
    tally.(tokens := tally.tokens[r := Get(tally.tokens, r) + 1], writes := tally.writes + 1)
  }

  ghost predicate SharedPage(s: State, lines: seq<TraceLine>, addr: int) {
    SharedAddress(addr) && LayoutOf(s.layout, lines)
  }

  /** The node that a new page for the line would go to. */
  ghost function Target(cfg: Config, s: State, lines: seq<TraceLine>, l: TraceLine): (node: nat)
    requires cfg.rule.Ok() && |s.balance.utilization| == cfg.rule.numNodes
    ensures node < cfg.rule.numNodes
  {
    Chosen(cfg.rule, s.balance, l.Req(), SharedPage(s, lines, l.addr))
  }

  ghost predicate TargetFull(cfg: Config, s: State, lines: seq<TraceLine>, l: TraceLine)
    requires cfg.rule.Ok() && s.books.Nodes() == cfg.rule.numNodes == |s.balance.utilization|
  {
    |s.books.nodePages[Target(cfg, s, lines, l)]| == cfg.capacity
  }

  /** One attempt to give a request a new page. It fails exactly if the node chosen is full. */
  ghost function Attempted(cfg: Config, s: State, lines: seq<TraceLine>, l: TraceLine, timestamp: int): State
    requires Fits(cfg, s) && l.Req() in s.active
  {
    var r, shared, node := l.Req(), SharedPage(s, lines, l.addr), Target(cfg, s, lines, l);
    var t := s.(layout := Some(LayoutOf(s.layout, lines)), balance := AfterChoice(cfg.rule, s.balance, shared));
    if TargetFull(cfg, s, lines, l) then t
    else t.(books := Entered(s.books, node, r, shared, timestamp),
            active := s.active[r := s.active[r] + [s.books.nextVirtual]],
            balance := Recorded(t.balance, r, node))
  }

  /** Counts a token; the first token of each block makes an attempt. */
  ghost function Written(cfg: Config, s: State, lines: seq<TraceLine>, l: TraceLine, timestamp: int): State
    requires Fits(cfg, s) && l.Req() in s.active
  {
    var t := s.(tally := CountToken(s.tally, l.Req()));
    if Get(t.tally.tokens, l.Req()) % KV_BLOCK_TOKENS == 1 then Attempted(cfg, t, lines, l, timestamp) else t
  }

  /** A read is recorded on the most recent page of the request, if it has one. */
  function ReadDone(s: State, r: int, timestamp: int): State {
    if ListOf(s.active, r) == [] then s
    else s.(books := s.books.(table := Touched(s.books.table, Last(s.active[r]), timestamp)))
  }

  ghost function AfterOp(cfg: Config, s: State, lines: seq<TraceLine>, l: TraceLine, timestamp: int): State
    requires Fits(cfg, s)
  {
    var t := Admitted(s, l.Req(), timestamp);
    if l.IsWrite() then Written(cfg, t, lines, l, timestamp)
    else if l.IsRead() then ReadDone(t, l.Req(), timestamp)
    else t
  }

  /** The line is counted; when a check is due, the utilisations are taken and one round of migration is made. */
  ghost predicate Ended(cfg: Config, s: State, s': State, timestamp: int)
    requires cfg.interval > 0
  {
    var tally := s.tally.(processed := s.tally.processed + 1);
    if tally.processed % cfg.interval != 0 then s' == s.(tally := tally)
    else
      && s.migrations <= s'.migrations
      && var moves, u := s'.migrations[|s.migrations|..], Utils(s.books.nodePages, cfg.capacity);
         && RoundMade(cfg.threshold, cfg.batchSize, cfg.capacity, timestamp, s.books, moves, s'.books)
         && s' == s.(books := s'.books, balance := s.balance.(utilization := u),
                     migrations := s.migrations + moves,
                     timeline := s.timeline + [Sample(timestamp, tally.processed, u, |moves|)],
                     tally := tally.(checks := tally.checks + 1))
  }

  /** What one line of the trace does. */
  ghost predicate LineStep(cfg: Config, lines: seq<TraceLine>, s: State, s': State, l: TraceLine)
    requires Fits(cfg, s)
  {
    if !l.Kept() then s' == s
    else
      var timestamp := l.Time(s.tally.processed * 100);
      Ended(cfg, AfterOp(cfg, s, lines, l, timestamp), s', timestamp)
  }

  /** The first `n` lines lead through the states of the run. */
  ghost predicate RunTo(cfg: Config, lines: seq<TraceLine>, run: seq<State>, n: nat) {
    && n <= |lines| && n < |run|
    && (forall i :: 0 <= i <= n ==> Fits(cfg, run[i]))
    && (forall i :: 0 <= i < n ==> LineStep(cfg, lines, run[i], run[i + 1], lines[i]))
  }

  // ------------------------------------------------------------ what one line does

  /** Lists are sound and shared pages are at home. */
  ghost predicate Sane(cfg: Config, s: State) {
    Sound(Owners(s.books.table), s.active) && SharedHome(s.books.table, cfg.rule.sharedNode)
  }

  /** The line carries the first token of a block. */
  predicate Due(s: State, l: TraceLine) {
    l.Kept() && l.IsWrite() && (Get(s.tally.tokens, l.Req()) + 1) % KV_BLOCK_TOKENS == 1
  }

  /** The line gives its request a page. */
  ghost predicate Places(cfg: Config, s: State, lines: seq<TraceLine>, l: TraceLine)
    requires Fits(cfg, s)
  {
    Due(s, l) && !TargetFull(cfg, s, lines, l)
  }

  /** The line asks for a page on a full node. */
  ghost predicate Misses(cfg: Config, s: State, lines: seq<TraceLine>, l: TraceLine)
    requires Fits(cfg, s)
  {
    Due(s, l) && TargetFull(cfg, s, lines, l)
  }

  /** The line is a read that reaches a page. */
  predicate Reaches(s: State, l: TraceLine) {
    l.Kept() && l.IsRead() && l.Req() in s.tally.firstSeen && ListOf(s.active, l.Req()) != []
  }

  /** The lists once the line has been admitted. */
  function Opened(s: State, l: TraceLine): (a: Lists)
    ensures s.tally.firstSeen.Keys <= s.active.Keys ==> l.Req() in a
  {
    if l.Req() in s.tally.firstSeen then s.active else s.active[l.Req() := []]
  }

  ghost function ListsAfter(cfg: Config, s: State, lines: seq<TraceLine>, l: TraceLine): Lists
    requires Fits(cfg, s)
  {
    var a, r := Opened(s, l), l.Req();
    if Places(cfg, s, lines, l) then a[r := a[r] + [s.books.nextVirtual]] else a
  }

  ghost function TableAfter(cfg: Config, s: State, lines: seq<TraceLine>, l: TraceLine, timestamp: int): Table
    requires Fits(cfg, s)
  {
    var b := s.books;
    if Places(cfg, s, lines, l) then
      b.table[b.nextVirtual :=
        NewPage(b, Target(cfg, s, lines, l), l.Req(), SharedPage(s, lines, l.addr), timestamp)]
    else if Reaches(s, l) then Touched(b.table, Last(s.active[l.Req()]), timestamp)
    else b.table
  }

  lemma {:induction false} AttemptEffect(cfg: Config, s: State, lines: seq<TraceLine>, l: TraceLine, timestamp: int)
    requires Fits(cfg, s) && l.Req() in s.active
    ensures var t, r, b, full := Attempted(cfg, s, lines, l, timestamp), l.Req(), s.books, TargetFull(cfg, s, lines, l);
            && t.tally == s.tally && t.timeline == s.timeline
            && t.active == (if full then s.active else s.active[r := s.active[r] + [b.nextVirtual]])
            && t.books.nextVirtual == (if full then b.nextVirtual else b.nextVirtual + 1)
            && t.books.table ==
                 if full then b.table
                 else b.table[b.nextVirtual :=
                        NewPage(b, Target(cfg, s, lines, l), r, SharedPage(s, lines, l.addr), timestamp)]
  {
    hide Books.BalancedAt, Indexed, Chosen, LayoutOf, SharedAddress, TargetFull, NextPhys, Recorded;
  }

  /** Admission and counting change neither the balance nor the layout nor the pages. */
  lemma {:induction false} SameTarget(cfg: Config, s: State, t: State, lines: seq<TraceLine>, l: TraceLine)
    requires Fits(cfg, s) && t == s.(active := t.active, tally := t.tally)
    requires t.tally.firstSeen.Keys <= t.active.Keys
    ensures Fits(cfg, t) && Target(cfg, t, lines, l) == Target(cfg, s, lines, l)
    ensures TargetFull(cfg, t, lines, l) == TargetFull(cfg, s, lines, l)
    ensures SharedPage(t, lines, l.addr) == SharedPage(s, lines, l.addr)
  {
    hide Books.Ok, Chosen, LayoutOf, SharedAddress;
  }

  /** The operation of a line changes the lists and the table by the page it places or reaches. */
  lemma {:induction false} OpEffect(cfg: Config, s: State, lines: seq<TraceLine>, l: TraceLine, timestamp: int)
    requires Fits(cfg, s) && l.Kept()
    ensures var t := AfterOp(cfg, s, lines, l, timestamp);
            && t.active == ListsAfter(cfg, s, lines, l)
            && t.books.table == TableAfter(cfg, s, lines, l, timestamp)
            && t.books.nextVirtual == s.books.nextVirtual + (if Places(cfg, s, lines, l) then 1 else 0)
  {
    hide Books.Ok, Target, SharedPage, Attempted, TargetFull, NewPage, Touched;
    var t := Admitted(s, l.Req(), timestamp);
    if l.IsWrite() {
      var u := t.(tally := CountToken(t.tally, l.Req()));
      SameTarget(cfg, s, u, lines, l);
      if Due(s, l) {
        AttemptEffect(cfg, u, lines, l, timestamp);
      }
    }
  }

  lemma {:induction false} OpTally(cfg: Config, s: State, lines: seq<TraceLine>, l: TraceLine, timestamp: int)
    requires Fits(cfg, s) && l.Kept()
    ensures var t, r := AfterOp(cfg, s, lines, l, timestamp), l.Req();
            && t.tally.firstSeen.Keys == s.tally.firstSeen.Keys + {r}
            && t.tally.tokens == (if l.IsWrite() then CountToken(s.tally, r).tokens else s.tally.tokens)
            && t.tally.writes == s.tally.writes + (if l.IsWrite() then 1 else 0)
            && t.tally.processed == s.tally.processed && t.tally.checks == s.tally.checks && t.timeline == s.timeline
  {
    hide Books.Ok, Target, SharedPage, Attempted, TargetFull, NewPage, Touched;
    if l.IsWrite() {
      var t := Admitted(s, l.Req(), timestamp);
      var u := t.(tally := CountToken(t.tally, l.Req()));
      SameTarget(cfg, s, u, lines, l);
      if Due(s, l) {
        AttemptEffect(cfg, u, lines, l, timestamp);
      }
    }
  }

  /** A check moves pages but changes no list, no owner and no access count. */
  lemma {:induction false} EndEffect(cfg: Config, s: State, s': State, timestamp: int)
    requires cfg.interval > 0 && Ended(cfg, s, s', timestamp)
    ensures s'.active == s.active && s'.books.nextVirtual == s.books.nextVirtual && s'.layout == s.layout
    ensures s.books.table == s'.books.table || OnlyMoved(s.books.table, s'.books.table)
  {
    hide OnlyMoved, Replays, Triggered, Relieves, ColdestFirst, Levelled, Exhausted, Utils;
  }

  lemma {:induction false} EndTally(cfg: Config, s: State, s': State, timestamp: int)
    requires cfg.interval > 0 && Ended(cfg, s, s', timestamp)
    ensures var p := s.tally.processed + 1;
            s'.tally == s.tally.(processed := p, checks := s.tally.checks + if p % cfg.interval == 0 then 1 else 0)
    ensures |s'.timeline| - |s.timeline| == s'.tally.checks - s.tally.checks
  {
    hide RoundMade, Utils;
  }

  /** One line changes the lists by the page it places, which is then a live page of its request. */
  lemma {:induction false} LineEffect(cfg: Config, s: State, s': State, lines: seq<TraceLine>, l: TraceLine)
    requires Fits(cfg, s) && Sane(cfg, s) && l.Kept() && LineStep(cfg, lines, s, s', l)
    ensures var b, b', r := s.books, s'.books, l.Req();
            && b.nextVirtual !in b.table && s'.active == ListsAfter(cfg, s, lines, l)
            && (if Places(cfg, s, lines, l) then
                  Owners(b'.table) == Owners(b.table)[b.nextVirtual := r] && b'.nextVirtual == b.nextVirtual + 1
                else Owners(b'.table) == Owners(b.table) && b'.nextVirtual == b.nextVirtual)
    ensures SharedHome(s'.books.table, cfg.rule.sharedNode)
  {
    hide Books.BalancedAt, Ended, AfterOp, Sound, SharedHome, Owners, Touched, ListsAfter, Chosen, LayoutOf,
         SharedAddress, TargetFull, OnlyMoved, Reaches, NextPhys, Due;
    var time, shared := l.Time(s.tally.processed * 100), cfg.rule.sharedNode;
    var t := AfterOp(cfg, s, lines, l, time);
    OpEffect(cfg, s, lines, l, time);
    TableKeeps(cfg, s, lines, l, time);
    EndEffect(cfg, t, s', time);
    if t.books.table != s'.books.table {
      MovedOwners(t.books.table, s'.books.table, shared);
    }
  }

  lemma {:induction false} TableKeeps(cfg: Config, s: State, lines: seq<TraceLine>, l: TraceLine, timestamp: int)
    requires Fits(cfg, s) && Sane(cfg, s) && l.Kept()
    ensures var b, t := s.books, TableAfter(cfg, s, lines, l, timestamp);
            && b.nextVirtual !in b.table && SharedHome(t, cfg.rule.sharedNode)
            && Owners(t) ==
                 if Places(cfg, s, lines, l) then Owners(b.table)[b.nextVirtual := l.Req()] else Owners(b.table)
  {
    hide Books.BalancedAt, Sound, SharedHome, Owners, Touched, LayoutOf, SharedAddress, TargetFull, NextPhys, Due;
    var b := s.books;
    if Places(cfg, s, lines, l) {
      var p := NewPage(b, Target(cfg, s, lines, l), l.Req(), SharedPage(s, lines, l.addr), timestamp);
      if p.isShared {
        ChosenIs(cfg.rule, s.balance, l.Req(), true, cfg.rule.sharedNode);
      }
      PlacedOwners(b.table, p, cfg.rule.sharedNode);
    } else if Reaches(s, l) {
      TouchedOwners(b.table, Last(s.active[l.Req()]), timestamp, cfg.rule.sharedNode);
    }
  }

  /** Each request seen keeps its list. */
  lemma {:induction false} SeenHaveLists(cfg: Config, s: State, s': State, lines: seq<TraceLine>, l: TraceLine)
    requires Fits(cfg, s) && LineStep(cfg, lines, s, s', l)
    ensures s'.tally.firstSeen.Keys <= s'.active.Keys
  {
    hide Books.Ok, Ended, AfterOp, CountToken, Places;
    if l.Kept() {
      var time := l.Time(s.tally.processed * 100);
      var t := AfterOp(cfg, s, lines, l, time);
      OpEffect(cfg, s, lines, l, time);
      OpTally(cfg, s, lines, l, time);
      EndEffect(cfg, t, s', time);
      EndTally(cfg, t, s', time);
    }
  }

  /** One line keeps the lists sound, and complete unless it drops an earlier list. */
  lemma {:induction false} LineKeeps(cfg: Config, s: State, s': State, lines: seq<TraceLine>, l: TraceLine)
    requires Fits(cfg, s) && Sane(cfg, s) && LineStep(cfg, lines, s, s', l)
    ensures Sane(cfg, s')
    ensures Complete(Owners(s'.books.table), s'.active) <==>
              && Complete(Owners(s.books.table), s.active)
              && (l.Kept() && l.Req() !in s.tally.firstSeen ==> ListOf(s.active, l.Req()) == [])
  {
    hide Books.Ok, LineStep, Sound, Complete, SharedHome, Owners, Due, TargetFull;
    if l.Kept() {
      var owners, r := Owners(s.books.table), l.Req();
      LineEffect(cfg, s, s', lines, l);
      if r !in s.tally.firstSeen {
        ResetList(owners, s.active, r);
      }
      if Places(cfg, s, lines, l) {
        NotOwned(s.books.table, s.books.nextVirtual);
        GrowList(owners, Opened(s, l), r, s.books.nextVirtual);
      }
    } else {
      SkippedLine(cfg, s, s', lines, l);
    }
  }

  lemma {:induction false} NotOwned(table: Table, v: nat)
    requires v !in table
    ensures v !in Owners(table)
  {
  }

  lemma {:induction false} SkippedLine(cfg: Config, s: State, s': State, lines: seq<TraceLine>, l: TraceLine)
    requires Fits(cfg, s) && LineStep(cfg, lines, s, s', l) && !l.Kept()
    ensures s' == s
  {
  }

  /** How one line changes the counters. */
  ghost predicate LineCounted(tally: Tally, tally': Tally, l: TraceLine, interval: nat)
    requires interval > 0
  {
    if !l.Kept() then tally' == tally
    else
      && tally'.firstSeen.Keys == tally.firstSeen.Keys + {l.Req()}
      && tally'.tokens == (if l.IsWrite() then CountToken(tally, l.Req()).tokens else tally.tokens)
      && tally'.processed == tally.processed + 1
      && tally'.writes == tally.writes + (if l.IsWrite() then 1 else 0)
      && tally'.checks == tally.checks + if tally'.processed % interval == 0 then 1 else 0
  }

  lemma {:induction false} LineCounts(cfg: Config, s: State, s': State, lines: seq<TraceLine>, l: TraceLine)
    requires Fits(cfg, s) && LineStep(cfg, lines, s, s', l)
    ensures LineCounted(s.tally, s'.tally, l, cfg.interval)
    ensures |s'.timeline| - |s.timeline| == s'.tally.checks - s.tally.checks
  {
    hide Books.Ok, Ended, AfterOp, CountToken;
    if l.Kept() {
      var time := l.Time(s.tally.processed * 100);
      OpTally(cfg, s, lines, l, time);
      EndTally(cfg, AfterOp(cfg, s, lines, l, time), s', time);
    }
  }

  // ------------------------------------------------------------ whole runs

  lemma {:induction false} RunPrefix(cfg: Config, lines: seq<TraceLine>, run: seq<State>, n: nat)
    requires RunTo(cfg, lines, run, n) && n > 0
    ensures RunTo(cfg, lines, run, n - 1) && n <= |lines| && n < |run|
    ensures Fits(cfg, run[n - 1]) && Fits(cfg, run[n]) && LineStep(cfg, lines, run[n - 1], run[n], lines[n - 1])
    ensures lines[..n] != [] && Init(lines[..n]) == lines[..n - 1] && Last(lines[..n]) == lines[n - 1]
  {
    hide Fits, LineStep;
    assert LineStep(cfg, lines, run[n - 1], run[n - 1 + 1], lines[n - 1]);
  }

  /** One more line. */
  lemma {:induction false} RunOn(cfg: Config, lines: seq<TraceLine>, run: seq<State>, n: nat, s: State)
    requires RunTo(cfg, lines, run, n) && |run| == n + 1 && n < |lines|
    requires Fits(cfg, s) && LineStep(cfg, lines, run[n], s, lines[n])
    ensures RunTo(cfg, lines, run + [s], n + 1)
  {
    hide Fits, LineStep;
    var more := run + [s];
    forall i | 0 <= i < n + 1
      ensures Fits(cfg, more[i]) && LineStep(cfg, lines, more[i], more[i + 1], lines[i])
    {
      assert more[i] == run[i];
      if i < n {
        assert more[i + 1] == run[i + 1];
      }
    }
  }

  lemma {:induction false} RunStart(cfg: Config, lines: seq<TraceLine>, s: State)
    requires Fits(cfg, s)
    ensures RunTo(cfg, lines, [s], 0)
  {
  }

  /** The lists stay sound and shared pages at home through every run. */
  lemma {:induction false} RunKeeps(cfg: Config, lines: seq<TraceLine>, run: seq<State>, n: nat)
    requires RunTo(cfg, lines, run, n) && Sane(cfg, run[0])
    ensures Sane(cfg, run[n])
  {
    hide *;
    if n > 0 {
      RunPrefix(cfg, lines, run, n);
      RunKeeps(cfg, lines, run, n - 1);
      LineKeeps(cfg, run[n - 1], run[n], lines, lines[n - 1]);
    }
  }

  /** The counters say what the lines so far say. */
  ghost predicate Counted(tally: Tally, prefix: seq<TraceLine>) {
    && (forall r :: r in tally.firstSeen <==> r in Requests(prefix))
    && (forall r :: Get(tally.tokens, r) == Tokens(prefix, r))
    && tally.processed == KeptCount(prefix) && tally.writes == WriteCount(prefix)
  }

  lemma {:induction false} CountedLine(tally: Tally, tally': Tally, before: seq<TraceLine>, l: TraceLine,
                                       lines: seq<TraceLine>, interval: nat)
    requires lines != [] && before == Init(lines) && l == Last(lines)
    requires Counted(tally, before) && interval > 0 && LineCounted(tally, tally', l, interval)
    ensures Counted(tally', lines)
  {
  }

  lemma {:induction false} CountedNone()
    ensures Counted(FRESH, [])
  {
  }

  /** There has been one check per `interval` lines. */
  ghost predicate ChecksDue(tally: Tally, interval: nat)
    requires interval > 0
  {
    tally.checks == tally.processed / interval
  }

  lemma {:induction false} ChecksStep(tally: Tally, tally': Tally, l: TraceLine, interval: nat)
    requires interval > 0 && LineCounted(tally, tally', l, interval) && ChecksDue(tally, interval)
    ensures ChecksDue(tally', interval)
  {
    hide CountToken;
    Arithmetic.NextRemainder(tally.processed, interval);
  }

  /** The counters of a run count its lines, and every check left one sample. */
  lemma {:induction false} RunCounts(cfg: Config, lines: seq<TraceLine>, run: seq<State>, n: nat)
    requires RunTo(cfg, lines, run, n) && run[0].tally == FRESH
    ensures Counted(run[n].tally, lines[..n])
    ensures cfg.interval > 0 && ChecksDue(run[n].tally, cfg.interval)
    ensures |run[n].timeline| == |run[0].timeline| + run[n].tally.checks
  {
    hide Books.Ok, LineStep, Counted, LineCounted;
    if n == 0 {
      CountedNone();
      assert lines[..n] == [];
    } else {
      var s, s', l := run[n - 1], run[n], lines[n - 1];
      RunPrefix(cfg, lines, run, n);
      RunCounts(cfg, lines, run, n - 1);
      LineCounts(cfg, s, s', lines, l);
      CountedLine(s.tally, s'.tally, lines[..n - 1], l, lines[..n], cfg.interval);
      ChecksStep(s.tally, s'.tally, l, cfg.interval);
    }
  }

  /** How often the request asked for a page on a full node. */
  ghost function Failures(cfg: Config, lines: seq<TraceLine>, run: seq<State>, n: nat, r: int): nat
    requires RunTo(cfg, lines, run, n)
  {
    if n == 0 then 0
    else
      var l := lines[n - 1];
      Failures(cfg, lines, run, n - 1, r) + if l.Req() == r && Misses(cfg, run[n - 1], lines, l) then 1 else 0
  }

  /** What the lists say of a request at some point of a run that started with the lists `start`. */
  ghost predicate Served(start: Lists, active: Lists, prefix: seq<TraceLine>, r: int, failures: nat) {
    if r in Requests(prefix) then r in active && |active[r]| + failures == Blocks(Tokens(prefix, r))
    else ListOf(active, r) == ListOf(start, r) && failures == 0
  }

  /** Each block of tokens of a request has given it a page, unless the node chosen for it was full. */
  lemma {:induction false} RunBlocks(cfg: Config, lines: seq<TraceLine>, run: seq<State>, n: nat, r: int)
    requires RunTo(cfg, lines, run, n) && run[0].tally == FRESH && Sane(cfg, run[0])
    ensures Served(run[0].active, run[n].active, lines[..n], r, Failures(cfg, lines, run, n, r))
  {
    hide Books.Ok, LineStep, Fits, Served, Misses;
    if n == 0 {
      ServedNone(run[0].active, r);
      assert lines[..n] == [];
    } else {
      RunPrefix(cfg, lines, run, n);
      RunBlocks(cfg, lines, run, n - 1, r);
      RunCounts(cfg, lines, run, n - 1);
      RunKeeps(cfg, lines, run, n - 1);
      ServedLine(cfg, run[0].active, run[n - 1], run[n], lines, lines[..n - 1], lines[n - 1], lines[..n], r,
                 Failures(cfg, lines, run, n - 1, r));
    }
  }

  lemma {:induction false} ServedNone(start: Lists, r: int)
    ensures Served(start, start, [], r, 0)
  {
  }

  lemma {:induction false} ServedLine(cfg: Config, start: Lists, s: State, s': State, lines: seq<TraceLine>,
                                      before: seq<TraceLine>, l: TraceLine, after: seq<TraceLine>, r: int,
                                      failures: nat)
    requires Fits(cfg, s) && Sane(cfg, s) && LineStep(cfg, lines, s, s', l) && Counted(s.tally, before)
    requires after != [] && before == Init(after) && l == Last(after)
    requires Served(start, s.active, before, r, failures)
    ensures Served(start, s'.active, after, r, failures + if l.Req() == r && Misses(cfg, s, lines, l) then 1 else 0)
  {
    hide Books.Ok, LineStep, Sane, TargetFull, Owners, Served, Counted, Tokens, Requests;
    if !l.Kept() {
      SkippedLine(cfg, s, s', lines, l);
      ServedOther(start, s.active, s.active, before, l, after, r, failures);
    } else {
      LineEffect(cfg, s, s', lines, l);
      SeenAsCounted(s.tally, before, l.Req());
      if l.Req() != r {
        ServedOther(start, s.active, s'.active, before, l, after, r, failures);
      } else {
        ServedOwn(start, s.active, s'.active, before, l, after, failures, Due(s, l), Places(cfg, s, lines, l),
                  s.books.nextVirtual);
      }
    }
  }

  lemma {:induction false} SeenAsCounted(tally: Tally, prefix: seq<TraceLine>, r: int)
    requires Counted(tally, prefix)
    ensures (r in tally.firstSeen <==> r in Requests(prefix)) && Get(tally.tokens, r) == Tokens(prefix, r)
  {
  }

  /** A line that is skipped, or of another request, changes nothing for a request. */
  lemma {:induction false} ServedOther(start: Lists, active: Lists, active': Lists, before: seq<TraceLine>,
                                       l: TraceLine, after: seq<TraceLine>, r: int, failures: nat)
    requires after != [] && before == Init(after) && l == Last(after) && !(l.Kept() && l.Req() == r)
    requires ListOf(active', r) == ListOf(active, r) && (r in active ==> r in active')
    requires Served(start, active, before, r, failures)
    ensures Served(start, active', after, r, failures)
  {
    hide Blocks;
  }

  /** A line of the request itself starts a block or not, and if so gives a page or fails. */
  lemma {:induction false} ServedOwn(start: Lists, active: Lists, active': Lists, before: seq<TraceLine>, l: TraceLine,
                                     after: seq<TraceLine>, failures: nat, due: bool, places: bool, v: nat)
    requires after != [] && before == Init(after) && l == Last(after) && l.Kept() && (places ==> due)
    requires due <==> l.IsWrite() && (Tokens(before, l.Req()) + 1) % KV_BLOCK_TOKENS == 1
    requires var a := if l.Req() in Requests(before) then active else active[l.Req() := []];
             l.Req() in a && active' == if places then a[l.Req() := a[l.Req()] + [v]] else a
    requires Served(start, active, before, l.Req(), failures)
    ensures Served(start, active', after, l.Req(), failures + if due && !places then 1 else 0)
  {
    hide Blocks;
    var r := l.Req();
    BlocksStep(Tokens(before, r));
    BlocksZero();
    if r !in Requests(before) {
      UnseenTokens(before, r);
    }
  }

  /** The lists still hold every live page exactly if they did and no request of the trace had an earlier list. */
  lemma {:induction false} RunCompleteIff(cfg: Config, lines: seq<TraceLine>, run: seq<State>, n: nat)
    requires RunTo(cfg, lines, run, n) && run[0].tally == FRESH && Sane(cfg, run[0])
    ensures Complete(Owners(run[n].books.table), run[n].active) <==>
              && Complete(Owners(run[0].books.table), run[0].active)
              && forall r :: r in Requests(lines[..n]) ==> ListOf(run[0].active, r) == []
  {
    hide Books.Ok, LineStep, Fits, Served, Complete, Owners, Sane, ListOf;
    if n == 0 {
      assert lines[..n] == [];
      assert run[n] == run[0] by {
        assert n == 0;
      }
    } else {
      var s, l := run[n - 1], lines[n - 1];
      RunPrefix(cfg, lines, run, n);
      RunCompleteIff(cfg, lines, run, n - 1);
      RunCounts(cfg, lines, run, n - 1);
      RunKeeps(cfg, lines, run, n - 1);
      LineKeeps(cfg, s, run[n], lines, l);
      if l.Kept() && l.Req() !in s.tally.firstSeen {
        RunBlocks(cfg, lines, run, n - 1, l.Req());
        UnseenList(run[0].active, s.active, lines[..n - 1], l.Req(), Failures(cfg, lines, run, n - 1, l.Req()));
      }
    }
  }

  lemma {:induction false} UnseenList(start: Lists, active: Lists, prefix: seq<TraceLine>, r: int, failures: nat)
    requires Served(start, active, prefix, r, failures) && r !in Requests(prefix)
    ensures ListOf(active, r) == ListOf(start, r)
  {
  }

  /** The table has grown by the pages in the lists of the requests of the trace, and by no more than one per block. */
  lemma {:induction false} RunPages(cfg: Config, lines: seq<TraceLine>, run: seq<State>, n: nat)
    requires RunTo(cfg, lines, run, n) && run[0].tally == FRESH && Sane(cfg, run[0])
    ensures |run[n].books.table| == |run[0].books.table| + Held(run[n].active, Requests(lines[..n]))
    ensures |run[n].books.table| <= |run[0].books.table| + BlockStarts(lines[..n])
  {
    hide Books.Ok, LineStep, Fits, Sane, Held, Owners;
    if n == 0 {
      assert lines[..n] == [];
      HeldNone(run[0].active);
    } else {
      RunPrefix(cfg, lines, run, n);
      RunPages(cfg, lines, run, n - 1);
      RunCounts(cfg, lines, run, n - 1);
      RunKeeps(cfg, lines, run, n - 1);
      PagesLine(cfg, run[n - 1], run[n], lines, lines[..n - 1], lines[n - 1], lines[..n]);
    }
  }

  lemma {:induction false} HeldNone(active: Lists)
    ensures Held(active, []) == 0
  {
  }

  lemma {:induction false} PagesLine(cfg: Config, s: State, s': State, lines: seq<TraceLine>,
                                     before: seq<TraceLine>, l: TraceLine, after: seq<TraceLine>)
    requires Fits(cfg, s) && Sane(cfg, s) && LineStep(cfg, lines, s, s', l) && Counted(s.tally, before)
    requires after != [] && before == Init(after) && l == Last(after)
    ensures var d := if Places(cfg, s, lines, l) then 1 else 0;
            && |s'.books.table| == |s.books.table| + d
            && Held(s'.active, Requests(after)) == Held(s.active, Requests(before)) + d
            && d <= BlockStarts(after) - BlockStarts(before)
  {
    hide Books.Ok, LineStep, Sane, TargetFull, Held, Owners;
    if l.Kept() {
      LineEffect(cfg, s, s', lines, l);
      OwnersSize(s.books.table);
      OwnersSize(s'.books.table);
      NotOwned(s.books.table, s.books.nextVirtual);
      HeldLine(s.active, s'.active, Requests(before), l.Req(), if Places(cfg, s, lines, l) then 1 else 0);
    } else {
      SkippedLine(cfg, s, s', lines, l);
    }
  }

  lemma {:induction false} OwnersSize(table: Table)
    ensures |Owners(table)| == |table|
  {
    assert Owners(table).Keys == table.Keys;
  }

  lemma {:induction false} HeldLine(active: Lists, active': Lists, rs: seq<int>, r: int, d: nat)
    requires forall i, j :: 0 <= i < j < |rs| ==> rs[i] != rs[j]
    requires forall q :: q != r ==> ListOf(active', q) == ListOf(active, q)
    requires |ListOf(active', r)| == d + if r in rs then |ListOf(active, r)| else 0
    ensures Held(active', if r in rs then rs else rs + [r]) == Held(active, rs) + d
  {
    hide Total;
    var f, g := Sizes(active), Sizes(active');
    if r in rs {
      TotalStep(f, g, rs, r, d);
    } else {
      SameTotal(f, g, rs);
      TotalAppend(g, rs, r);
    }
  }

  lemma {:induction false} SameTotal(f: int -> nat, g: int -> nat, rs: seq<int>)
    requires forall i :: 0 <= i < |rs| ==> g(rs[i]) == f(rs[i])
    ensures Total(g, rs) == Total(f, rs)
  {
    if rs != [] {
      SameTotal(f, g, Init(rs));
    }
  }

  /** While the whole trace would fit on any one node, no request fails. */
  lemma {:induction false} RunAmple(cfg: Config, lines: seq<TraceLine>, run: seq<State>, n: nat, r: int)
    requires RunTo(cfg, lines, run, n) && run[0].tally == FRESH && Sane(cfg, run[0])
    requires |run[0].books.table| + BlockStarts(lines[..n]) <= cfg.capacity
    ensures Failures(cfg, lines, run, n, r) == 0
  {
    hide Books.Ok, LineStep, Sane, Target;
    if n > 0 {
      var s, l := run[n - 1], lines[n - 1];
      RunPrefix(cfg, lines, run, n);
      RunAmple(cfg, lines, run, n - 1, r);
      RunPages(cfg, lines, run, n - 1);
      RunCounts(cfg, lines, run, n - 1);
      if Misses(cfg, s, lines, l) {
        assert StartsBlock(lines[..n - 1], l);
        NodePagesInTable(cfg, s, Target(cfg, s, lines, l));
        assert false;
      }
    }
  }

  lemma {:induction false} NodePagesInTable(cfg: Config, s: State, node: nat)
    requires Fits(cfg, s) && node < s.books.Nodes()
    ensures |s.books.nodePages[node]| <= |s.books.table|
  {
    SubsetSize(s.books.nodePages[node], s.books.table.Keys);
  }

  /** The accesses recorded on all pages. */
  function AllAccesses(b: Books): nat {
    Accesses(b.table, b.nextVirtual)
  }

  /** The reads of the run that reached a page. */
  ghost function ReadsDone(cfg: Config, lines: seq<TraceLine>, run: seq<State>, n: nat): nat
    requires RunTo(cfg, lines, run, n)
  {
    if n == 0 then 0
    else ReadsDone(cfg, lines, run, n - 1) + if Reaches(run[n - 1], lines[n - 1]) then 1 else 0
  }

  /** Each read that reached a page added one access to the table, and nothing else did. */
  lemma {:induction false} RunAccesses(cfg: Config, lines: seq<TraceLine>, run: seq<State>, n: nat)
    requires RunTo(cfg, lines, run, n) && Sane(cfg, run[0])
    ensures AllAccesses(run[n].books) == AllAccesses(run[0].books) + ReadsDone(cfg, lines, run, n)
  {
    hide Books.Ok, LineStep, Fits, Sane, AllAccesses, Reaches;
    if n > 0 {
      RunPrefix(cfg, lines, run, n);
      RunAccesses(cfg, lines, run, n - 1);
      RunKeeps(cfg, lines, run, n - 1);
      AccessesLine(cfg, run[n - 1], run[n], lines, lines[n - 1]);
    }
  }

  lemma {:induction false} AccessesLine(cfg: Config, s: State, s': State, lines: seq<TraceLine>, l: TraceLine)
    requires Fits(cfg, s) && Sane(cfg, s) && LineStep(cfg, lines, s, s', l)
    ensures AllAccesses(s'.books) == AllAccesses(s.books) + if Reaches(s, l) then 1 else 0
  {
    hide Books.Ok, Ended, AfterOp, Accesses, Sane, Target, OnlyMoved;
    if l.Kept() {
      var time := l.Time(s.tally.processed * 100);
      var t := AfterOp(cfg, s, lines, l, time);
      OpEffect(cfg, s, lines, l, time);
      OpAccesses(cfg, s, lines, l, time);
      EndEffect(cfg, t, s', time);
      if t.books.table != s'.books.table {
        MovedAccesses(t.books.table, s'.books.table, s'.books.nextVirtual);
      }
    }
  }

  lemma {:induction false} MovedAccesses(before: Table, after: Table, n: nat)
    requires OnlyMoved(before, after)
    ensures Accesses(after, n) == Accesses(before, n)
  {
    SameAccesses(before, after, n);
  }

  lemma {:induction false} OpAccesses(cfg: Config, s: State, lines: seq<TraceLine>, l: TraceLine, timestamp: int)
    requires Fits(cfg, s) && Sane(cfg, s) && l.Kept()
    ensures var next := s.books.nextVirtual;
            Accesses(TableAfter(cfg, s, lines, l, timestamp), next + if Places(cfg, s, lines, l) then 1 else 0)
              == Accesses(s.books.table, next) + if Reaches(s, l) then 1 else 0
  {
    hide Books.BalancedAt, Sound, SharedHome, Owners, Touched, Target, TargetFull, SharedPage;
    var b := s.books;
    if Places(cfg, s, lines, l) {
      SameAccesses(b.table, TableAfter(cfg, s, lines, l, timestamp), b.nextVirtual);
    } else if Reaches(s, l) {
      LastLives(b.table, s.active, l.Req());
      TouchedAccesses(b.table, Last(s.active[l.Req()]), timestamp, b.nextVirtual);
    }
  }

  /** A read reaches a live page of the reading request, the one it was given last, and is counted there. */
  lemma {:induction false} ReadReachesOwn(cfg: Config, lines: seq<TraceLine>, run: seq<State>, n: nat, i: nat)
    requires RunTo(cfg, lines, run, n) && Sane(cfg, run[0]) && i < n && Reaches(run[i], lines[i])
    ensures var r, b, b' := lines[i].Req(), run[i].books, run[i + 1].books;
            && r in run[i].active && run[i].active[r] != []
            && var v := Last(run[i].active[r]);
               && v in b.table && b.table[v].req == r && v in b'.table
               && b'.table[v].accessCount == b.table[v].accessCount + 1
               && forall w :: w in b.table && w != v ==>
                    w in b'.table && b'.table[w].accessCount == b.table[w].accessCount
  {
    hide Books.Ok, Ended, AfterOp, Sound, SharedHome, Owners, Places;
    RunPrefixTo(cfg, lines, run, n, i);
    RunKeeps(cfg, lines, run, i);
    var s, l := run[i], lines[i];
    var time := l.Time(s.tally.processed * 100);
    LastLives(s.books.table, s.active, l.Req());
    OpEffect(cfg, s, lines, l, time);
    NotPlaced(cfg, s, lines, l);
    EndEffect(cfg, AfterOp(cfg, s, lines, l, time), run[i + 1], time);
  }

  lemma {:induction false} NotPlaced(cfg: Config, s: State, lines: seq<TraceLine>, l: TraceLine)
    requires Fits(cfg, s) && Reaches(s, l)
    ensures !Places(cfg, s, lines, l)
  {
  }

  lemma {:induction false} RunPrefixTo(cfg: Config, lines: seq<TraceLine>, run: seq<State>, n: nat, i: nat)
    requires RunTo(cfg, lines, run, n) && i < n
    ensures RunTo(cfg, lines, run, i) && Fits(cfg, run[i]) && LineStep(cfg, lines, run[i], run[i + 1], lines[i])
  {
    hide Fits, LineStep;
  }

  /** While no request fails, exactly the reads of requests that have written a token reach a page. */
  lemma {:induction false} RunReads(cfg: Config, lines: seq<TraceLine>, run: seq<State>, n: nat)
    requires RunTo(cfg, lines, run, n) && run[0].tally == FRESH && Sane(cfg, run[0])
    requires |run[0].books.table| + BlockStarts(lines[..n]) <= cfg.capacity
    ensures ReadsDone(cfg, lines, run, n) == LateReads(lines[..n])
  {
    hide Books.Ok, LineStep, Fits, Sane, Blocks, BlockStarts;
    if n == 0 {
      assert lines[..n] == [];
    } else {
      var s, l, before := run[n - 1], lines[n - 1], lines[..n - 1];
      RunPrefix(cfg, lines, run, n);
      MoreStarts(lines[..n]);
      RunReads(cfg, lines, run, n - 1);
      RunBlocks(cfg, lines, run, n - 1, l.Req());
      RunAmple(cfg, lines, run, n - 1, l.Req());
      RunCounts(cfg, lines, run, n - 1);
      BlocksZero();
      if l.Req() !in Requests(before) {
        UnseenTokens(before, l.Req());
      }
    }
  }

  /** What a whole run amounts to. */
  lemma {:induction false} RunResult(cfg: Config, lines: seq<TraceLine>, run: seq<State>)
    requires RunTo(cfg, lines, run, |lines|) && run[0].tally == FRESH && Sane(cfg, run[0])
    ensures var s, s' := run[0], run[|lines|];
            && Sane(cfg, s') && Counted(s'.tally, lines) && ChecksDue(s'.tally, cfg.interval)
            && |s'.timeline| == |s.timeline| + s'.tally.checks
            && (forall r :: r in Requests(lines) ==>
                  && r in s'.active
                  && |s'.active[r]| + Failures(cfg, lines, run, |lines|, r) == Blocks(Tokens(lines, r)))
            && (forall r :: r !in Requests(lines) ==> ListOf(s'.active, r) == ListOf(s.active, r))
            && |s'.books.table| == |s.books.table| + Held(s'.active, Requests(lines))
            && AllAccesses(s'.books) == AllAccesses(s.books) + ReadsDone(cfg, lines, run, |lines|)
            && (Complete(Owners(s'.books.table), s'.active) <==>
                  && Complete(Owners(s.books.table), s.active)
                  && forall r :: r in Requests(lines) ==> ListOf(s.active, r) == [])
  {
    hide Books.Ok, Sane, Counted, ChecksDue, Complete, Held, AllAccesses, LineStep, Owners, ListOf, Failures, Blocks;
    assert lines[..|lines|] == lines;
    RunKeeps(cfg, lines, run, |lines|);
    RunCounts(cfg, lines, run, |lines|);
    RunPages(cfg, lines, run, |lines|);
    RunAccesses(cfg, lines, run, |lines|);
    RunCompleteIff(cfg, lines, run, |lines|);
    var before, after := run[0].active, run[|lines|].active;
    forall r | r in Requests(lines)
      ensures r in after && |after[r]| + Failures(cfg, lines, run, |lines|, r) == Blocks(Tokens(lines, r))
    {
      RunBlocks(cfg, lines, run, |lines|, r);
    }
    forall r | r !in Requests(lines)
      ensures ListOf(after, r) == ListOf(before, r)
    {
      RunBlocks(cfg, lines, run, |lines|, r);
    }
  }

  /** When the blocks of the trace would fit on one node, every request gets all its pages. */
  lemma {:induction false} RunResultAmple(cfg: Config, lines: seq<TraceLine>, run: seq<State>)
    requires RunTo(cfg, lines, run, |lines|) && run[0].tally == FRESH && Sane(cfg, run[0])
    ensures |run[0].books.table| + TotalBlocks(lines) <= cfg.capacity ==>
              && (forall r :: r in Requests(lines) ==>
                    r in run[|lines|].active && |run[|lines|].active[r]| == Blocks(Tokens(lines, r)))
              && AllAccesses(run[|lines|].books) == AllAccesses(run[0].books) + LateReads(lines)
  {
    hide Books.Ok, Sane, AllAccesses, LineStep, TotalBlocks, BlockStarts, Blocks, Failures, ReadsDone;
    assert lines[..|lines|] == lines;
    BlockStartsTotal(lines);
    if |run[0].books.table| + BlockStarts(lines) <= cfg.capacity {
      RunReads(cfg, lines, run, |lines|);
      RunAccesses(cfg, lines, run, |lines|);
      var after := run[|lines|].active;
      forall r | r in Requests(lines)
        ensures r in after && |after[r]| == Blocks(Tokens(lines, r))
      {
        RunAmple(cfg, lines, run, |lines|, r);
        RunBlocks(cfg, lines, run, |lines|, r);
      }
    }
  }

  lemma {:induction false} MoreStarts(lines: seq<TraceLine>)
    requires lines != []
    ensures BlockStarts(Init(lines)) <= BlockStarts(lines)
  {
  }

  // ------------------------------------------------------------ two traces, the second of which drops pages

  lemma {:induction false} AttemptFits(cfg: Config, s: State, lines: seq<TraceLine>, l: TraceLine, timestamp: int)
    requires Fits(cfg, s) && l.Req() in s.active
    ensures Fits(cfg, Attempted(cfg, s, lines, l, timestamp))
  {
    hide Books.Ok, Target, SharedPage, Entered, Recorded;
    var t := Attempted(cfg, s, lines, l, timestamp);
    assert t.tally == s.tally && s.active.Keys <= t.active.Keys;
    if !TargetFull(cfg, s, lines, l) {
      EnterIn(s.books, cfg.capacity, Target(cfg, s, lines, l), l.Req(), SharedPage(s, lines, l.addr), timestamp);
      RecordedSame(AfterChoice(cfg.rule, s.balance, SharedPage(s, lines, l.addr)), l.Req(), Target(cfg, s, lines, l));
    }
  }

  lemma {:induction false} RecordedSame(b: Balance, req: int, node: nat)
    ensures Recorded(b, req, node).utilization == b.utilization
  {
  }

  /** The operation of a line keeps the accounts. */
  lemma {:induction false} OpFits(cfg: Config, s: State, lines: seq<TraceLine>, l: TraceLine, timestamp: int)
    requires Fits(cfg, s) && l.Kept()
    ensures Fits(cfg, AfterOp(cfg, s, lines, l, timestamp))
  {
    hide Books.Ok, Target, SharedPage, Attempted, Touched;
    var t := Admitted(s, l.Req(), timestamp);
    if l.IsWrite() {
      var u := t.(tally := CountToken(t.tally, l.Req()));
      SameTarget(cfg, s, u, lines, l);
      AttemptFits(cfg, u, lines, l, timestamp);
    } else if l.IsRead() && ListOf(t.active, l.Req()) != [] {
      TouchIn(t.books, cfg.capacity, Last(t.active[l.Req()]), timestamp);
    }
  }

  /** A line after which no check is due. */
  lemma {:induction false} OneLine(cfg: Config, s: State, l: TraceLine) returns (run: seq<State>)
    requires Fits(cfg, s) && Sane(cfg, s) && l.Kept() && s.tally.processed == 0 && cfg.interval > 1
    ensures RunTo(cfg, [l], run, 1) && |run| == 2 && run[0] == s && Sane(cfg, run[1])
    ensures run[1].tally.processed == 1
  {
    hide Books.Ok, Written, ReadDone, Sane;
    var timestamp := l.Time(s.tally.processed * 100);
    var t := AfterOp(cfg, s, [l], l, timestamp);
    OpFits(cfg, s, [l], l, timestamp);
    OpTally(cfg, s, [l], l, timestamp);
    var s' := t.(tally := t.tally.(processed := 1));
    assert Ended(cfg, t, s', timestamp);
    LineKeeps(cfg, s, s', [l], l);
    run := [s, s'];
  }

  /**
   * From an empty scheduler, a trace that writes one token of request 7, and a second one that only
   * reads for it: after the first the lists hold every live page, after the second they do not.
   */
  lemma {:induction false} SecondTraceDrops() returns (cfg: Config, first: seq<State>, second: seq<State>)
    ensures var write, read := TraceLine(5, "K", 0, "", 0, 7), TraceLine(5, "RK", 0, "", 1, 7);
            && RunTo(cfg, [write], first, 1) && RunTo(cfg, [read], second, 1)
            && first[0].books.table == map[] && first[0].active == map[] && first[0].tally == FRESH
            && second[0] == first[1].(tally := FRESH)
            && Complete(Owners(second[0].books.table), second[0].active)
            && !Complete(Owners(second[1].books.table), second[1].active)
  {
    hide Books.Ok, Target, LineStep, Sound, SharedHome, Owners, Blocks, Entered;
    var write, read := TraceLine(5, "K", 0, "", 0, 7), TraceLine(5, "RK", 0, "", 1, 7);
    cfg := Config(Rule(2, RoundRobin, 0.85, 0), 4, 0.2, 64, 100);
    EmptyIn(4, 2);
    var books := Books(map[], seq(2, _ => {}), seq(2, _ => 0), seq(2, _ => []), 0);
    var start := State(books, map[], None, Balance(0, [0.0, 0.0], map[]), [], [], FRESH);
    NothingOwned();
    first := OneLine(cfg, start, write);
    LineKeeps(cfg, first[0], first[1], [write], write);
    LineEffect(cfg, first[0], first[1], [write], write);
    assert Places(cfg, first[0], [write], write);
    assert first[1].active[7] == [0];
    second := OneLine(cfg, first[1].(tally := FRESH), read);
    LineKeeps(cfg, second[0], second[1], [read], read);
  }

  lemma {:induction false} NothingOwned()
    ensures Complete(Owners(map[]), map[]) && Sound(Owners(map[]), map[])
    ensures forall node :: SharedHome(map[], node)
  {
  }
}
