/** Load-balancing migration and defragmentation of KV pages (scripts/host_os_scheduler.py, DynamicMigrator). */
module Migrator {
  import opened Wrappers
  import opened Bandwidth
  import opened PageTable
  import opened Compaction

  const KV_PAGE_SIZE_BYTES: nat := 4096

  datatype MigrationEvent = MigrationEvent(page: nat, src: nat, dst: nat, timestamp: int, bytes: nat, latency: int)

  function TotalLatency(moves: seq<MigrationEvent>): int {
    if moves == [] then 0 else TotalLatency(Init(moves)) + Last(moves).latency
  }

  // ------------------------------------------------------------ utilisation, as exact fractions

  function Util(count: nat, capacity: nat): real {
    count as real / Max(capacity, 1) as real
  }

  lemma {:induction false} UtilStep(count: nat, capacity: nat)
    requires capacity > 0
    ensures Util(count + 1, capacity) == Util(count, capacity) + 1.0 / capacity as real
  {
  }

  lemma {:induction false} UtilOrder(a: nat, b: nat, capacity: nat)
    ensures Util(a, capacity) <= Util(b, capacity) <==> a <= b
  {
    var c := Max(capacity, 1) as real;
    assert Util(a, capacity) * c == a as real && Util(b, capacity) * c == b as real;
    if Util(a, capacity) <= Util(b, capacity) {
      assert Util(a, capacity) * c <= Util(b, capacity) * c;
    } else {
      assert Util(b, capacity) * c < Util(a, capacity) * c;
    }
  }

  function Utils(nodePages: seq<set<nat>>, capacity: nat): (u: seq<real>)
    ensures |u| == |nodePages|
  {
    seq(|nodePages|, n requires 0 <= n < |nodePages| => Util(|nodePages[n]|, capacity))
  }

  function Sum(u: seq<real>): real {
    if u == [] then 0.0 else Sum(u[..|u| - 1]) + u[|u| - 1]
  }

  function Mean(u: seq<real>): real
    requires u != []
  {
    Sum(u) / |u| as real
  }

  predicate Overloaded(u: seq<real>, threshold: real, n: nat) {
    n < |u| && u[n] > Mean(u) + threshold / 2.0
  }

  predicate Underloaded(u: seq<real>, threshold: real, n: nat) {
    n < |u| && u[n] < Mean(u) - threshold / 2.0
  }

  // ------------------------------------------------------------ the same by counting pages

  function TotalPages(nodePages: seq<set<nat>>): nat {
    if nodePages == [] then 0 else TotalPages(Init(nodePages)) + |Last(nodePages)|
  }

  lemma {:induction false} SumOfUtils(nodePages: seq<set<nat>>, capacity: nat)
    ensures Sum(Utils(nodePages, capacity)) * Max(capacity, 1) as real == TotalPages(nodePages) as real
  {
    if nodePages != [] {
      SumOfUtils(Init(nodePages), capacity);
      var u := Utils(nodePages, capacity);
      assert u[..|u| - 1] == Utils(Init(nodePages), capacity);
      UtilTimes(|Last(nodePages)|, capacity);
      var c, a, b := Max(capacity, 1) as real, Sum(u[..|u| - 1]), u[|u| - 1];
      assert (a + b) * c == a * c + b * c;
    }
  }

  lemma {:induction false} UtilTimes(count: nat, capacity: nat)
    ensures Util(count, capacity) * Max(capacity, 1) as real == count as real
  {
  }

  /** The pages on the first `k` nodes. */
  ghost function PagesBelow(table: Table, k: nat): set<nat> {
    set v | v in table && table[v].node < k
  }

  lemma {:induction false} TotalBelow(table: Table, nodePages: seq<set<nat>>, nextVirtual: nat, k: nat)
    requires Indexed(table, nodePages, nextVirtual) && k <= |nodePages|
    ensures TotalPages(nodePages[..k]) == |PagesBelow(table, k)|
  {
    if k == 0 {
      assert PagesBelow(table, 0) == {};
    } else {
      TotalBelow(table, nodePages, nextVirtual, k - 1);
      assert Init(nodePages[..k]) == nodePages[..k - 1];
      PagesOfNode(table, nodePages, nextVirtual, k - 1);
    }
  }

  lemma {:induction false} PagesOfNode(table: Table, nodePages: seq<set<nat>>, nextVirtual: nat, k: nat)
    requires Indexed(table, nodePages, nextVirtual) && k < |nodePages|
    ensures |PagesBelow(table, k + 1)| == |PagesBelow(table, k)| + |nodePages[k]|
  {
    assert PagesBelow(table, k + 1) == PagesBelow(table, k) + nodePages[k];
    assert PagesBelow(table, k) !! nodePages[k];
  }

  /** The nodes together hold the whole table. */
  lemma {:induction false} TotalIsTable(table: Table, nodePages: seq<set<nat>>, nextVirtual: nat)
    requires Indexed(table, nodePages, nextVirtual)
    ensures TotalPages(nodePages) == |table|
  {
    TotalBelow(table, nodePages, nextVirtual, |nodePages|);
    assert nodePages[..|nodePages|] == nodePages;
    assert PagesBelow(table, |nodePages|) == table.Keys;
  }

  /**
   * A node is overloaded when it holds more than its share of all pages by half the threshold of its
   * capacity, and underloaded when it holds that much less.
   */
  lemma {:induction false} OverloadedByPages(table: Table, nodePages: seq<set<nat>>, nextVirtual: nat, capacity: nat,
                                             threshold: real, n: nat)
    requires Indexed(table, nodePages, nextVirtual) && n < |nodePages|
    ensures var u, share, slack := Utils(nodePages, capacity), |table| as real / |nodePages| as real,
                                   threshold * Max(capacity, 1) as real / 2.0;
            && (Overloaded(u, threshold, n) <==> |nodePages[n]| as real > share + slack)
            && (Underloaded(u, threshold, n) <==> (|nodePages[n]| as real) < share - slack)
  {
    hide Util, Sum, Indexed;
    var u, c := Utils(nodePages, capacity), Max(capacity, 1) as real;
    TotalIsTable(table, nodePages, nextVirtual);
    SumOfUtils(nodePages, capacity);
    UtilTimes(|nodePages[n]|, capacity);
    Against(u[n], Sum(u), c, |nodePages| as real, threshold, |nodePages[n]| as real, |table| as real);
  }

  /** Comparing with the mean, before and after multiplying by the capacity. */
  lemma {:induction false} Against(x: real, sum: real, c: real, nodes: real, threshold: real, count: real, total: real)
    requires c > 0.0 && nodes > 0.0 && x * c == count && sum * c == total
    ensures x > sum / nodes + threshold / 2.0 <==> count > total / nodes + threshold * c / 2.0
    ensures x < sum / nodes - threshold / 2.0 <==> count < total / nodes - threshold * c / 2.0
  {
    var mean := sum / nodes;
    MeanTimes(sum, c, nodes, total);
    Scaled(x, mean + threshold / 2.0, c);
    Scaled(mean - threshold / 2.0, x, c);
    TimesSum(mean, threshold / 2.0, c);
    TimesSum(mean, -(threshold / 2.0), c);
    assert threshold / 2.0 * c == threshold * c / 2.0;
  }

  lemma {:induction false} TimesSum(a: real, b: real, c: real)
    ensures (a + b) * c == a * c + b * c
  {
  }

  lemma {:induction false} MeanTimes(sum: real, c: real, nodes: real, total: real)
    requires nodes > 0.0 && sum * c == total
    ensures sum / nodes * c == total / nodes
  {
    assert sum / nodes * c * nodes == sum / nodes * nodes * c;
  }

  lemma {:induction false} Scaled(a: real, b: real, c: real)
    requires c > 0.0
    ensures a > b <==> a * c > b * c
  {
    if a > b {
      assert (a - b) * c > 0.0;
    } else {
      assert (b - a) * c >= 0.0;
    }
  }

  /** The spread of the utilisations, in pages. */
  lemma {:induction false} SpreadByPages(nodePages: seq<set<nat>>, capacity: nat, threshold: real, i: nat, j: nat)
    requires i < |nodePages| && j < |nodePages|
    ensures var u := Utils(nodePages, capacity);
            u[i] - u[j] >= threshold <==>
            (|nodePages[i]| - |nodePages[j]|) as real >= threshold * Max(capacity, 1) as real
  {
    hide Util;
    var u, c := Utils(nodePages, capacity), Max(capacity, 1) as real;
    UtilTimes(|nodePages[i]|, capacity);
    UtilTimes(|nodePages[j]|, capacity);
    Scaled(threshold, u[i] - u[j], c);
    assert (u[i] - u[j]) * c == u[i] * c - u[j] * c;
  }

  predicate Selected(u: seq<real>, threshold: real, over: bool, n: nat) {
    if over then Overloaded(u, threshold, n) else Underloaded(u, threshold, n)
  }

  ghost predicate IsSelection(u: seq<real>, threshold: real, over: bool, nodes: seq<nat>) {
    forall n: nat :: n in nodes <==> Selected(u, threshold, over, n)
  }

  /** When a round of migration is called for: the spread is large and there are nodes on both sides. */
  ghost predicate Triggered(u: seq<real>, threshold: real) {
    && u != []
    && (exists i, j :: 0 <= i < |u| && 0 <= j < |u| && u[i] - u[j] >= threshold)
    && (exists n :: Overloaded(u, threshold, n))
    && (exists n :: Underloaded(u, threshold, n))
  }

  method MeanOf(u: seq<real>) returns (mean: real)
    requires u != []
    ensures mean == Mean(u)
  {
    var sum := 0.0;
    for i := 0 to |u|
      invariant sum == Sum(u[..i])
    {
      assert u[..i + 1][..i] == u[..i];
      sum := sum + u[i];
    }
    assert u[..|u|] == u;
    mean := sum / |u| as real;
  }

  /** The spread between the fullest and the emptiest node. */
  method Spread(u: seq<real>) returns (spread: real)
    requires u != []
    ensures exists i, j :: 0 <= i < |u| && 0 <= j < |u| && spread == u[i] - u[j]
    ensures forall i, j :: 0 <= i < |u| && 0 <= j < |u| ==> u[i] - u[j] <= spread
  {
    var hi, lo := 0, 0;
    for i := 0 to |u|
      invariant 0 <= hi < |u| && 0 <= lo < |u|
      invariant forall k :: 0 <= k < i ==> u[lo] <= u[k] <= u[hi]
    {
      if u[hi] < u[i] {
        hi := i;
      }
      if u[i] < u[lo] {
        lo := i;
      }
    }
    spread := u[hi] - u[lo];
  }

  method SelectNodes(u: seq<real>, threshold: real, over: bool) returns (nodes: seq<nat>)
    requires u != []
    ensures IsSelection(u, threshold, over, nodes)
    ensures forall i :: 0 <= i < |nodes| ==> nodes[i] < |u|
  {
    var mean := MeanOf(u);
    nodes := [];
    for n := 0 to |u|
      invariant forall i :: 0 <= i < |nodes| ==> nodes[i] < n
      invariant forall m: nat :: m in nodes <==> m < n && Selected(u, threshold, over, m)
    {
      if if over then u[n] > mean + threshold / 2.0 else u[n] < mean - threshold / 2.0 {
        nodes := nodes + [n];
      }
    }
  }

  // ------------------------------------------------------------ sorting pages by a key

  lemma {:induction false} LeastExists(s: set<nat>, key: map<nat, nat>)
    requires s != {} && s <= key.Keys
    ensures exists v :: v in s && forall w :: w in s ==> key[v] <= key[w]
  {
    var v :| v in s;
    if s != {v} {
      LeastExists(s - {v}, key);
      var u :| u in s - {v} && forall w :: w in s - {v} ==> key[u] <= key[w];
      var least := if key[v] <= key[u] then v else u;
      assert forall w :: w in s ==> key[least] <= key[w];
    }
  }

  ghost predicate Ascending(order: seq<nat>, key: map<nat, nat>) {
    && (forall i :: 0 <= i < |order| ==> order[i] in key)
    && forall i, j :: 0 <= i < j < |order| ==> order[i] != order[j] && key[order[i]] <= key[order[j]]
  }

  /** Any ascending order of the pages; pages with equal keys may come in any order. */
  method SortPages(pages: set<nat>, key: map<nat, nat>) returns (order: seq<nat>)
    requires pages <= key.Keys
    ensures forall v :: v in order <==> v in pages
    ensures Ascending(order, key)
  {
    order := [];
    var rest := pages;
    while rest != {}
      invariant rest <= pages
      invariant forall v :: v in order <==> v in pages - rest
      invariant Ascending(order, key)
      invariant forall i, v :: 0 <= i < |order| && v in rest ==> order[i] != v && key[order[i]] <= key[v]
    {
      LeastExists(rest, key);
      var v :| v in rest && forall w :: w in rest ==> key[v] <= key[w];
      order, rest := order + [v], rest - {v};
    }
  }

  // ------------------------------------------------------------ what a round of migration may do

  function Locations(table: Table): map<nat, nat> {
    map v | v in table :: table[v].node
  }

  /** The log replayed over where the pages were; each entry must match where the page then is. */
  ghost predicate Replays(before: map<nat, nat>, moves: seq<MigrationEvent>, after: map<nat, nat>) {
    if moves == [] then after == before
    else
      var m := moves[0];
      && m.page in before && before[m.page] == m.src != m.dst
      && Replays(before[m.page := m.dst], moves[1..], after)
  }

  lemma {:induction false} ReplaysAppend(before: map<nat, nat>, moves: seq<MigrationEvent>, mid: map<nat, nat>,
                                         m: MigrationEvent)
    requires Replays(before, moves, mid) && m.page in mid && mid[m.page] == m.src != m.dst
    ensures Replays(before, moves + [m], mid[m.page := m.dst])
  {
    if moves != [] {
      assert (moves + [m])[1..] == moves[1..] + [m];
      ReplaysAppend(before[moves[0].page := moves[0].dst], moves[1..], mid, m);
    } else {
      assert (moves + [m])[1..] == [];
    }
  }

  /** Migration changes at most where a page is and its state, and leaves shared pages alone. */
  ghost predicate OnlyMoved(before: Table, after: Table) {
    && after.Keys == before.Keys
    && forall v :: v in before ==>
         && after[v] == before[v].(node := after[v].node, phys := after[v].phys, state := after[v].state)
         && (before[v].isShared ==> after[v] == before[v])
  }

  /** No destination of a move holds more than one page above any of the given nodes. */
  ghost predicate Fair(nodePages: seq<set<nat>>, moves: seq<MigrationEvent>, nodes: seq<nat>) {
    forall m, u :: m in moves && m.dst < |nodePages| && u in nodes && u < |nodePages| ==>
      |nodePages[m.dst]| <= |nodePages[u]| + 1
  }

  predicate Apart(over: seq<nat>, under: seq<nat>) {
    forall n :: n in over ==> n !in under
  }

  /** What holds of the pages at every point of a round that started from `start`. */
  ghost predicate Round(start: Table, b: Books, moves: seq<MigrationEvent>, over: seq<nat>, under: seq<nat>) {
    && OnlyMoved(start, b.table)
    && Replays(Locations(start), moves, Locations(b.table))
    && (forall m :: m in moves ==> m.src in over && m.dst in under)
    && (Apart(over, under) ==> Fair(b.nodePages, moves, under))
  }

  /** One page has moved. */
  ghost predicate Step(b: Books, b': Books, m: MigrationEvent) {
    && m.page in b.table && b.table[m.page].node == m.src != m.dst && !b.table[m.page].isShared
    && m.src < b.Nodes() && m.dst < b.Nodes()
    && m.page in b'.table
    && b'.table == b.table[m.page := b.table[m.page].(node := m.dst, phys := b'.table[m.page].phys, state := Allocated)]
    && b'.nodePages == Moved(b.nodePages, m.page, m.src, m.dst)
    && b'.nextVirtual == b.nextVirtual
  }

  lemma {:induction false} StepOnlyMoves(start: Table, b: Books, b': Books, m: MigrationEvent)
    requires OnlyMoved(start, b.table) && Step(b, b', m)
    ensures OnlyMoved(start, b'.table)
    ensures Locations(b'.table) == Locations(b.table)[m.page := m.dst]
  {
  }

  /** A move takes exactly one page from the source and adds it to the destination. */
  lemma {:induction false} StepSizes(b: Books, b': Books, m: MigrationEvent)
    requires Indexed(b.table, b.nodePages, b.nextVirtual) && Step(b, b', m)
    ensures |b'.nodePages[m.src]| == |b.nodePages[m.src]| - 1
    ensures |b'.nodePages[m.dst]| == |b.nodePages[m.dst]| + 1
    ensures b'.Nodes() == b.Nodes()
    ensures forall n :: 0 <= n < b.Nodes() && n != m.src && n != m.dst ==> b'.nodePages[n] == b.nodePages[n]
  {
    assert m.page in b.nodePages[m.src] && m.page !in b.nodePages[m.dst];
  }

  /** Choosing the least filled of the given nodes keeps the destinations within one page of all of them. */
  lemma {:induction false} StepFair(b: Books, b': Books, m: MigrationEvent, moves: seq<MigrationEvent>, under: seq<nat>)
    requires Indexed(b.table, b.nodePages, b.nextVirtual) && Step(b, b', m)
    requires Fair(b.nodePages, moves, under) && m.src !in under && m.dst in under
    requires forall x :: x in moves ==> x.dst in under
    requires forall n :: n in under && n < b.Nodes() ==> |b.nodePages[m.dst]| <= |b.nodePages[n]|
    ensures Fair(b'.nodePages, moves + [m], under)
  {
    StepSizes(b, b', m);
    forall x, u | x in moves + [m] && x.dst < b.Nodes() && u in under && u < b.Nodes()
      ensures |b'.nodePages[x.dst]| <= |b'.nodePages[u]| + 1
    {
      assert |b.nodePages[m.dst]| <= |b.nodePages[u]|;
      if x.dst != m.dst {
        assert x in moves;
        assert |b.nodePages[x.dst]| <= |b.nodePages[u]| + 1;
        assert |b'.nodePages[u]| >= |b.nodePages[u]|;
      }
    }
  }

  lemma {:induction false} StepInRound(start: Table, b: Books, b': Books, m: MigrationEvent, moves: seq<MigrationEvent>,
                                       over: seq<nat>, under: seq<nat>)
    requires Indexed(b.table, b.nodePages, b.nextVirtual) && Step(b, b', m)
    requires Round(start, b, moves, over, under) && m.src in over && m.dst in under
    requires forall n :: n in under && n < b.Nodes() ==> |b.nodePages[m.dst]| <= |b.nodePages[n]|
    ensures Round(start, b', moves + [m], over, under)
  {
    hide Replays, Fair, OnlyMoved;
    StepOnlyMoves(start, b, b', m);
    ReplaysAppend(Locations(start), moves, Locations(b.table), m);
    if Apart(over, under) {
      StepFair(b, b', m, moves, under);
    }
  }

  lemma {:induction false} StepUtils(b: Books, b': Books, m: MigrationEvent, capacity: nat)
    requires b.Ok(capacity) && Step(b, b', m)
    ensures capacity > 0
    ensures var step := 1.0 / capacity as real;
            var u := Utils(b.nodePages, capacity);
            Utils(b'.nodePages, capacity) == u[m.src := u[m.src] - step][m.dst := u[m.dst] + step]
  {
    FullIff(b, capacity, m.src);
    StepSizes(b, b', m);
    UtilStep(|b.nodePages[m.src]| - 1, capacity);
    UtilStep(|b.nodePages[m.dst]|, capacity);
  }

  /** The least utilised node is the one with the fewest pages. */
  lemma {:induction false} LeastIsLeast(nodePages: seq<set<nat>>, capacity: nat, dst: nat, n: nat)
    requires dst < |nodePages| && n < |nodePages|
    ensures Utils(nodePages, capacity)[dst] <= Utils(nodePages, capacity)[n] <==> |nodePages[dst]| <= |nodePages[n]|
  {
    UtilOrder(|nodePages[dst]|, |nodePages[n]|, capacity);
  }

  /** The pages of a node that are not shared. */
  function Private(b: Books, n: nat): set<nat>
    requires n < b.Nodes()
  {
    set v | v in b.nodePages[n] && v in b.table && !b.table[v].isShared
  }

  ghost predicate AllFull(nodePages: seq<set<nat>>, capacity: nat, nodes: seq<nat>) {
    forall n :: n in nodes && n < |nodePages| ==> |nodePages[n]| == capacity
  }

  /** The pages of the order from `i` on are still on the source, to be moved. */
  ghost predicate Waiting(b: Books, src: nat, order: seq<nat>, i: nat) {
    src < b.Nodes() && forall k :: i <= k < |order| ==> order[k] in Private(b, src)
  }

  /** The moves took the pages in order, missing none, unless the destinations are full. */
  ghost predicate InOrder(b: Books, src: nat, order: seq<nat>, i: nat, moves: seq<MigrationEvent>, full: bool) {
    && src < b.Nodes() && |moves| <= i <= |order|
    && (forall k :: 0 <= k < |moves| ==> moves[k].page == order[k] && order[k] !in Private(b, src))
    && (forall v :: v in Private(b, src) ==> v in order)
    && (|moves| == i || full)
  }

  lemma {:induction false} PrivateStep(b: Books, b': Books, m: MigrationEvent)
    requires Indexed(b.table, b.nodePages, b.nextVirtual) && Step(b, b', m)
    ensures Private(b', m.src) == Private(b, m.src) - {m.page}
  {
    assert Private(b', m.src) == Private(b, m.src) - {m.page};
  }

  lemma {:induction false} WaitingStep(capacity: nat, b: Books, b': Books, m: MigrationEvent, order: seq<nat>,
                                       i: nat, key: map<nat, nat>)
    requires b.Ok(capacity) && Step(b, b', m)
    requires Waiting(b, m.src, order, i) && i < |order| && m.page == order[i] && Ascending(order, key)
    ensures Waiting(b', m.src, order, i + 1)
  {
    PrivateStep(b, b', m);
  }

  lemma {:induction false} InOrderStep(capacity: nat, b: Books, b': Books, m: MigrationEvent, order: seq<nat>,
                                       i: nat, moves: seq<MigrationEvent>,
                                       full: bool, full': bool)
    requires b.Ok(capacity) && Step(b, b', m)
    requires InOrder(b, m.src, order, i, moves, full) && !full && i < |order| && m.page == order[i]
    ensures InOrder(b', m.src, order, i + 1, moves + [m], full')
  {
    PrivateStep(b, b', m);
  }

  lemma {:induction false} InOrderStart(b: Books, src: nat, order: seq<nat>, full: bool)
    requires src < b.Nodes() && forall v :: v in Private(b, src) ==> v in order
    ensures InOrder(b, src, order, 0, [], full)
  {
  }

  lemma {:induction false} InOrderStuck(b: Books, src: nat, order: seq<nat>, i: nat, moves: seq<MigrationEvent>)
    requires InOrder(b, src, order, i, moves, true) && i < |order|
    ensures InOrder(b, src, order, i + 1, moves, true)
  {
  }

  lemma {:induction false} InOrderDone(b: Books, src: nat, order: seq<nat>, moves: seq<MigrationEvent>, full: bool)
    requires InOrder(b, src, order, |order|, moves, full)
    ensures full || Private(b, src) == {}
  {
    if !full {
      forall v | v in order
        ensures v !in Private(b, src)
      {
        var k :| 0 <= k < |order| && order[k] == v;
      }
    }
  }

  /** The pages moved are the coldest: none was accessed more often than a private page left behind. */
  ghost predicate Coldest(start: Table, left: set<nat>, moves: seq<MigrationEvent>) {
    forall m, v :: m in moves && v in left && m.page in start && v in start ==>
      start[m.page].accessCount <= start[v].accessCount
  }

  lemma {:induction false} DrainedColdest(start: Table, b: Books, key: map<nat, nat>, src: nat, order: seq<nat>, i: nat,
                                          moves: seq<MigrationEvent>, full: bool)
    requires Ascending(order, key) && InOrder(b, src, order, i, moves, full)
    requires forall v :: v in key && v in start ==> key[v] == start[v].accessCount
    ensures Coldest(start, Private(b, src), moves)
  {
    forall m, v | m in moves && v in Private(b, src) && m.page in start && v in start
      ensures start[m.page].accessCount <= start[v].accessCount
    {
      var k :| 0 <= k < |moves| && moves[k] == m;
      var l :| 0 <= l < |order| && order[l] == v;
      assert |moves| <= l;
    }
  }

  /** Nodes outside `under` only lose pages; those inside, when they lose none to others, only gain. */
  ghost predicate Shifted(before: seq<set<nat>>, after: seq<set<nat>>, under: seq<nat>, apart: bool) {
    && |before| == |after|
    && forall n :: 0 <= n < |before| ==>
         && (n !in under ==> after[n] <= before[n])
         && (apart && n in under ==> before[n] <= after[n])
  }

  lemma {:induction false} StepShifts(start: seq<set<nat>>, b: Books, b': Books, m: MigrationEvent, under: seq<nat>,
                                      apart: bool)
    requires Step(b, b', m) && m.dst in under && (apart ==> m.src !in under)
    requires Shifted(start, b.nodePages, under, apart)
    ensures Shifted(start, b'.nodePages, under, apart)
  {
    var after := b'.nodePages;
    forall n | 0 <= n < |start|
      ensures (n !in under ==> after[n] <= b.nodePages[n]) && (apart && n in under ==> b.nodePages[n] <= after[n])
    {
    }
  }

  lemma {:induction false} ShiftedNone(nodePages: seq<set<nat>>, under: seq<nat>, apart: bool)
    ensures Shifted(nodePages, nodePages, under, apart)
  {
  }

  /** Of each source, the pages moved are the coldest of its private pages. */
  ghost predicate ColdestFirst(start: Table, b: Books, moves: seq<MigrationEvent>) {
    forall m, v :: m in moves && m.src < b.Nodes() && v in Private(b, m.src) && m.page in start && v in start ==>
      start[m.page].accessCount <= start[v].accessCount
  }

  /** The first `i` sources have been drained, or the batch is used up, or the destinations are full. */
  ghost predicate DrainedTo(b: Books, capacity: nat, over: seq<nat>, i: nat, under: seq<nat>, batchDone: bool) {
    || batchDone || AllFull(b.nodePages, capacity, under)
    || forall k :: 0 <= k < i && k < |over| && over[k] < b.Nodes() ==> Private(b, over[k]) == {}
  }

  lemma {:induction false} PrivateShrinks(start: Table, b: Books, b': Books, under: seq<nat>, n: nat)
    requires OnlyMoved(start, b.table) && OnlyMoved(start, b'.table)
    requires Shifted(b.nodePages, b'.nodePages, under, true) && n < b.Nodes() && n !in under
    ensures Private(b', n) <= Private(b, n)
  {
  }

  lemma {:induction false} ColdestSource(start: Table, b: Books, b': Books, over: seq<nat>, under: seq<nat>, src: nat,
                                         moves: seq<MigrationEvent>, made: seq<MigrationEvent>)
    requires OnlyMoved(start, b.table) && OnlyMoved(start, b'.table)
    requires Shifted(b.nodePages, b'.nodePages, under, true) && src < b.Nodes() && Apart(over, under)
    requires ColdestFirst(start, b, moves) && (forall m :: m in moves ==> m.src in over)
    requires Coldest(start, Private(b', src), made) && (forall m :: m in made ==> m.src == src)
    ensures ColdestFirst(start, b', moves + made)
  {
    forall m, v | m in moves + made && m.src < b.Nodes() && v in Private(b', m.src) && m.page in start && v in start
      ensures start[m.page].accessCount <= start[v].accessCount
    {
      if m in moves {
        PrivateShrinks(start, b, b', under, m.src);
      }
    }
  }

  lemma {:induction false} DrainedSource(start: Table, b: Books, b': Books, capacity: nat, over: seq<nat>, i: nat,
                                         under: seq<nat>,
                                         batchDone: bool)
    requires OnlyMoved(start, b.table) && OnlyMoved(start, b'.table) && b'.Ok(capacity)
    requires Shifted(b.nodePages, b'.nodePages, under, true) && Apart(over, under)
    requires i < |over| && over[i] < b.Nodes() && DrainedTo(b, capacity, over, i, under, false)
    requires batchDone || Private(b', over[i]) == {} || AllFull(b'.nodePages, capacity, under)
    ensures DrainedTo(b', capacity, over, i + 1, under, batchDone)
  {
    if !batchDone && AllFull(b.nodePages, capacity, under) {
      forall n | n in under && n < b.Nodes()
        ensures |b'.nodePages[n]| == capacity
      {
        FullIff(b', capacity, n);
        SubsetSize(b.nodePages[n], b'.nodePages[n]);
      }
    } else if !batchDone && !AllFull(b'.nodePages, capacity, under) {
      forall k | 0 <= k < i && over[k] < b.Nodes()
        ensures Private(b', over[k]) == {}
      {
        PrivateShrinks(start, b, b', under, over[k]);
      }
    }
  }

  lemma {:induction false} RoundStart(b: Books, capacity: nat, over: seq<nat>, under: seq<nat>, batchDone: bool)
    ensures Round(b.table, b, [], over, under)
    ensures ColdestFirst(b.table, b, []) && DrainedTo(b, capacity, over, 0, under, batchDone)
  {
  }

  lemma {:induction false} DrainedByBatch(b: Books, capacity: nat, over: seq<nat>, i: nat, under: seq<nat>)
    ensures DrainedTo(b, capacity, over, i, under, true)
  {
  }

  lemma {:induction false} SourceDone(start: Table, b: Books, b': Books, capacity: nat, over: seq<nat>, i: nat,
                                      under: seq<nat>,
                                      moves: seq<MigrationEvent>, made: seq<MigrationEvent>, batchDone: bool)
    requires Round(start, b, moves, over, under) && Round(start, b', moves + made, over, under) && b'.Ok(capacity)
    requires Shifted(b.nodePages, b'.nodePages, under, true) && Apart(over, under)
    requires i < |over| && over[i] < b.Nodes() && DrainedTo(b, capacity, over, i, under, false)
    requires batchDone || Private(b', over[i]) == {} || AllFull(b'.nodePages, capacity, under)
    requires ColdestFirst(start, b, moves) && (forall m :: m in made ==> m.src == over[i])
    requires Coldest(start, Private(b', over[i]), made)
    ensures DrainedTo(b', capacity, over, i + 1, under, batchDone)
    ensures ColdestFirst(start, b', moves + made)
  {
    hide ColdestFirst, DrainedTo, Coldest, AllFull, Shifted;
    ColdestSource(start, b, b', over, under, over[i], moves, made);
    DrainedSource(start, b, b', capacity, over, i, under, batchDone);
  }

  lemma {:induction false} OrderRank(key: map<nat, nat>, order: seq<nat>, i: nat)
    requires Injective(key) && Ascending(order, key) && i < |order| && forall v :: v in order <==> v in key
    ensures Rank(key, order[i]) == i
  {
    AscendingRank(key, order, i);
  }

  /** The k-th table has the k lowest pages at their ranks, and no two live pages of the node share an id in it. */
  ghost predicate Stepwise(start: Table, pages: set<nat>, steps: seq<Table>) {
    forall k :: 0 <= k < |steps| ==> steps[k] == Partly(start, pages, k) && Injective(PhysOn(steps[k], pages))
  }

  lemma {:induction false} OneStepMore(start: Table, pages: set<nat>, steps: seq<Table>)
    requires Stepwise(start, pages, steps) || steps == []
    requires Injective(PhysOn(start, pages))
    ensures Stepwise(start, pages, steps + [Partly(start, pages, |steps|)])
    ensures steps == [] ==> Stepwise(start, pages, [Partly(start, pages, 0)])
  {
    hide Partly, Injective;
    PartlyInjective(start, pages, |steps|);
    assert [] + [Partly(start, pages, 0)] == [Partly(start, pages, 0)];
  }

  /** The pages whose physical id is another one than before. */
  function ChangedIds(before: Table, after: Table): set<nat> {
    set v | v in before && v in after && after[v].phys != before[v].phys
  }

  lemma {:induction false} NoChangedIds(t: Table)
    ensures ChangedIds(t, t) == {}
  {
  }

  lemma {:induction false} OneChangedId(before: Table, t: Table, v: nat, i: nat)
    requires v in before && v in t && t[v] == before[v] && i != t[v].phys
    ensures |ChangedIds(before, t[v := t[v].(phys := i)])| == |ChangedIds(before, t)| + 1
    ensures t[v := t[v].(phys := i)] != before
  {
    var after := t[v := t[v].(phys := i)];
    assert ChangedIds(before, after) == ChangedIds(before, t) + {v};
    assert after[v] != before[v];
  }

  /** Where the loop of the compaction goes next. */
  lemma {:induction false} DefragmentStep(start: Table, pages: set<nat>, order: seq<nat>, i: nat)
    requires var key := PhysOn(start, pages);
             Injective(key) && Ascending(order, key) && i < |order| && forall v :: v in order <==> v in key
    ensures var t, v := Partly(start, pages, i), order[i];
            v in start && v in t && t[v] == start[v] && Partly(start, pages, i + 1) == t[v := start[v].(phys := i)]
  {
    OrderRank(PhysOn(start, pages), order, i);
    PartlyStep(start, pages, i, order[i]);
  }

  lemma {:induction false} SortedSize(pages: set<nat>, key: map<nat, nat>, order: seq<nat>)
    requires Ascending(order, key) && forall v :: v in order <==> v in pages
    ensures |order| == |pages|
  {
    OrderSize(pages, order);
  }

  lemma {:induction false} Snoc(a: seq<MigrationEvent>, b: seq<MigrationEvent>, m: MigrationEvent)
    ensures a + (b + [m]) == a + b + [m]
  {
  }

  /** The access counts of the pages are still those of the start of the round. */
  lemma {:induction false} CountsKept(start: Table, b: Books, moves: seq<MigrationEvent>, over: seq<nat>,
                                      under: seq<nat>,
                                      key: map<nat, nat>)
    requires Round(start, b, moves, over, under)
    requires forall v :: v in key ==> v in b.table && key[v] == b.table[v].accessCount
    ensures forall v :: v in key && v in start ==> key[v] == start[v].accessCount
  {
  }

  /** No overloaded node can give, or no underloaded node can take, another page. */
  ghost predicate Exhausted(b: Books, capacity: nat, u: seq<real>, threshold: real) {
    || (forall n: nat :: Underloaded(u, threshold, n) && n < b.Nodes() ==> |b.nodePages[n]| == capacity)
    || (forall n: nat :: Overloaded(u, threshold, n) && n < b.Nodes() ==> Private(b, n) == {})
  }

  /** No node that received a page ends more than one page above any underloaded node. */
  ghost predicate Levelled(b: Books, u: seq<real>, threshold: real, moves: seq<MigrationEvent>) {
    forall m, n: nat :: m in moves && m.dst < b.Nodes() && n < b.Nodes() && Underloaded(u, threshold, n) ==>
      |b.nodePages[m.dst]| <= |b.nodePages[n]| + 1
  }

  /** The moves go from overloaded to underloaded nodes. */
  ghost predicate Relieves(u: seq<real>, threshold: real, moves: seq<MigrationEvent>) {
    forall m :: m in moves ==> Overloaded(u, threshold, m.src) && Underloaded(u, threshold, m.dst)
  }

  lemma {:induction false} RoundResult(start: Table, b: Books, capacity: nat, u: seq<real>, threshold: real,
                                       over: seq<nat>, under: seq<nat>, moves: seq<MigrationEvent>, batchDone: bool)
    requires IsSelection(u, threshold, true, over) && IsSelection(u, threshold, false, under)
    requires Round(start, b, moves, over, under)
    requires Apart(over, under) ==> DrainedTo(b, capacity, over, |over|, under, batchDone)
    ensures Relieves(u, threshold, moves)
    ensures threshold >= 0.0 ==> Apart(over, under) && Levelled(b, u, threshold, moves)
    ensures threshold >= 0.0 ==> batchDone || Exhausted(b, capacity, u, threshold)
  {
    forall m | m in moves
      ensures Overloaded(u, threshold, m.src) && Underloaded(u, threshold, m.dst)
    {
      assert Selected(u, threshold, true, m.src) && Selected(u, threshold, false, m.dst);
    }
    if threshold >= 0.0 {
      forall n | n in over
        ensures n !in under
      {
        assert Selected(u, threshold, true, n);
        assert !Selected(u, threshold, false, n);
      }
      forall n: nat | Underloaded(u, threshold, n)
        ensures n in under
      {
        assert Selected(u, threshold, false, n);
      }
      forall n: nat | Overloaded(u, threshold, n) && n < b.Nodes()
        ensures batchDone || AllFull(b.nodePages, capacity, under) || Private(b, n) == {}
      {
        assert Selected(u, threshold, true, n);
        var k :| 0 <= k < |over| && over[k] == n;
      }
    }
  }

  lemma {:induction false} NoMoves(b: Books, u: seq<real>, threshold: real)
    ensures OnlyMoved(b.table, b.table) && Replays(Locations(b.table), [], Locations(b.table))
    ensures ColdestFirst(b.table, b, []) && Levelled(b, u, threshold, []) && Relieves(u, threshold, [])
  {
  }

  /**
   * A round is called for when two nodes differ by at least the threshold of the capacity, one node is
   * above its share of the pages by more than half of that, and one as far below.
   */
  lemma {:induction false} TriggeredByPages(table: Table, nodePages: seq<set<nat>>, nextVirtual: nat, capacity: nat,
                                            threshold: real)
    requires Indexed(table, nodePages, nextVirtual) && nodePages != []
    ensures var gap, share := threshold * Max(capacity, 1) as real, |table| as real / |nodePages| as real;
            Triggered(Utils(nodePages, capacity), threshold) <==>
            && (exists i, j :: 0 <= i < |nodePages| && 0 <= j < |nodePages| &&
                               (|nodePages[i]| - |nodePages[j]|) as real >= gap)
            && (exists n :: 0 <= n < |nodePages| && |nodePages[n]| as real > share + gap / 2.0)
            && exists n :: 0 <= n < |nodePages| && (|nodePages[n]| as real) < share - gap / 2.0
  {
    hide Indexed, Overloaded, Underloaded, Util;
    var u := Utils(nodePages, capacity);
    forall i, j | 0 <= i < |nodePages| && 0 <= j < |nodePages|
      ensures u[i] - u[j] >= threshold <==>
              (|nodePages[i]| - |nodePages[j]|) as real >= threshold * Max(capacity, 1) as real
    {
      SpreadByPages(nodePages, capacity, threshold, i, j);
    }
    forall n: nat | n < |nodePages|
      ensures var share, slack := |table| as real / |nodePages| as real, threshold * Max(capacity, 1) as real / 2.0;
              && (Overloaded(u, threshold, n) <==> |nodePages[n]| as real > share + slack)
              && (Underloaded(u, threshold, n) <==> (|nodePages[n]| as real) < share - slack)
    {
      OverloadedByPages(table, nodePages, nextVirtual, capacity, threshold, n);
    }
    OnlyNodes(u, threshold);
  }

  lemma {:induction false} OnlyNodes(u: seq<real>, threshold: real)
    ensures forall n: nat :: Overloaded(u, threshold, n) || Underloaded(u, threshold, n) ==> n < |u|
  {
  }

  lemma {:induction false} IsTriggered(u: seq<real>, threshold: real, over: seq<nat>, under: seq<nat>)
    requires IsSelection(u, threshold, true, over) && IsSelection(u, threshold, false, under)
    requires over != [] && under != []
    requires exists i, j :: 0 <= i < |u| && 0 <= j < |u| && u[i] - u[j] >= threshold
    ensures Triggered(u, threshold)
  {
    assert over[0] in over && under[0] in under;
    assert Selected(u, threshold, true, over[0]) && Selected(u, threshold, false, under[0]);
  }

  lemma {:induction false} NotTriggered(u: seq<real>, threshold: real, over: seq<nat>, under: seq<nat>)
    requires IsSelection(u, threshold, true, over) && IsSelection(u, threshold, false, under)
    requires over == [] || under == []
    ensures !Triggered(u, threshold)
  {
    if Triggered(u, threshold) {
      var n :| Overloaded(u, threshold, n);
      var m :| Underloaded(u, threshold, m);
      assert Selected(u, threshold, true, n) && Selected(u, threshold, false, m);
      assert false;
    }
  }

  /** What one round of load-balancing amounts to. */
  ghost predicate RoundMade(threshold: real, batchSize: int, capacity: nat, timestamp: int, before: Books,
                            moves: seq<MigrationEvent>, after: Books) {
    var u := Utils(before.nodePages, capacity);
    && OnlyMoved(before.table, after.table) && after.nextVirtual == before.nextVirtual
    && Replays(Locations(before.table), moves, Locations(after.table))
    && |moves| <= Max(batchSize, 0) && (forall m :: m in moves ==> m.timestamp == timestamp)
    && (!Triggered(u, threshold) ==> moves == [] && after == before)
    && Relieves(u, threshold, moves)
    && (threshold >= 0.0 ==>
          && ColdestFirst(before.table, after, moves)
          && Levelled(after, u, threshold, moves)
          && (Triggered(u, threshold) && |moves| < batchSize ==> Exhausted(after, capacity, u, threshold)))
  }

  class DynamicMigrator {
    const pageTable: GlobalKVPageTable
    const bandwidthGbps: real
    const imbalanceThreshold: real
    const batchSize: int

    var migrations: seq<MigrationEvent>
    var totalMigratedPages: nat
    var totalMigratedBytes: nat
    var totalLatency: int

    constructor (pageTable: GlobalKVPageTable, bandwidthGbps: real, imbalanceThreshold: real, batchSize: int)
      ensures this.pageTable == pageTable && this.bandwidthGbps == bandwidthGbps
      ensures this.imbalanceThreshold == imbalanceThreshold && this.batchSize == batchSize
      ensures migrations == [] && Logged()
    {
      this.pageTable, this.bandwidthGbps := pageTable, bandwidthGbps;
      this.imbalanceThreshold, this.batchSize := imbalanceThreshold, batchSize;
      migrations, totalMigratedPages, totalMigratedBytes, totalLatency := [], 0, 0, 0;
    }

    /** The counters agree with the log. */
    ghost predicate Logged()
      reads this
    {
      && totalMigratedPages == |migrations| && totalMigratedBytes == 4096 * |migrations|
      && totalLatency == TotalLatency(migrations)
    }

    /** The move has the size of a page and takes the time that a page takes. */
    ghost predicate PageSized(m: MigrationEvent) {
      bandwidthGbps > 0.0 && m.bytes == 4096 && m.latency == TransferTime(bandwidthGbps, 4096)
    }

    method ComputeMigrationLatency(bytes: nat) returns (latency: int)
      requires bandwidthGbps > 0.0
      ensures latency == TransferTime(bandwidthGbps, bytes) >= 1
    {
      var bytesPerNs := bandwidthGbps / 8.0;
      latency := Max(1, (bytes as real / bytesPerNs).Floor);
    }

    /** The first node of the list with the least utilisation. */
    method LeastUtilised(nodes: seq<nat>, utils: seq<real>) returns (dst: nat)
      requires nodes != [] && forall i :: 0 <= i < |nodes| ==> nodes[i] < |utils|
      ensures dst in nodes && forall i :: 0 <= i < |nodes| ==> utils[dst] <= utils[nodes[i]]
      ensures exists k :: 0 <= k < |nodes| && nodes[k] == dst && forall i :: 0 <= i < k ==> utils[dst] < utils[nodes[i]]
    {
      var k := 0;
      for i := 1 to |nodes|
        invariant 0 <= k < |nodes|
        invariant forall j :: 0 <= j < i ==> utils[nodes[k]] <= utils[nodes[j]]
        invariant forall j :: 0 <= j < k ==> utils[nodes[k]] < utils[nodes[j]]
      {
        if utils[nodes[i]] < utils[nodes[k]] {
          k := i;
        }
      }
      dst := nodes[k];
    }

    method LogMove(page: nat, src: nat, dst: nat, timestamp: int) returns (m: MigrationEvent)
      requires Logged() && bandwidthGbps > 0.0
      modifies this
      ensures Logged() && migrations == old(migrations) + [m]
      ensures m == MigrationEvent(page, src, dst, timestamp, 4096, TransferTime(bandwidthGbps, 4096)) && PageSized(m)
      ensures totalMigratedBytes == old(totalMigratedBytes) + 4096 && totalLatency == old(totalLatency) + m.latency
    {
      hide TransferTime;
      var latency := ComputeMigrationLatency(KV_PAGE_SIZE_BYTES);
      m := MigrationEvent(page, src, dst, timestamp, KV_PAGE_SIZE_BYTES, latency);
      assert Init(migrations + [m]) == migrations;
      migrations := migrations + [m];
      totalMigratedPages := totalMigratedPages + 1;
      totalMigratedBytes := totalMigratedBytes + KV_PAGE_SIZE_BYTES;
      totalLatency := totalLatency + latency;
    }

    /** Moves one page if the destination has room, and records the move. */
    method MovePage(page: nat, src: nat, dst: nat, timestamp: int, utils: seq<real>)
      returns (ok: bool, newUtils: seq<real>)
      requires pageTable.Valid() && Logged() && bandwidthGbps > 0.0
      requires src < pageTable.numNodes && dst < pageTable.numNodes
      requires page in pageTable.table && pageTable.table[page].node == src && !pageTable.table[page].isShared
      requires utils == Utils(pageTable.nodePages, pageTable.pagesPerNode)
      modifies this, pageTable
      ensures pageTable.Valid() && Logged()
      ensures newUtils == Utils(pageTable.nodePages, pageTable.pagesPerNode)
      ensures ok <==> src != dst && |old(pageTable.nodePages[dst])| < pageTable.pagesPerNode
      ensures !ok ==> migrations == old(migrations) && pageTable.Contents() == old(pageTable.Contents())
      ensures ok ==>
                && |migrations| > 0 && migrations == old(migrations) + [migrations[|migrations| - 1]]
                && var m := migrations[|migrations| - 1];
                   && m.page == page && m.src == src && m.dst == dst && m.timestamp == timestamp && PageSized(m)
                   && Step(old(pageTable.Contents()), pageTable.Contents(), m)
    {
      hide Indexed, Util, Utils, NodeOk;
      ghost var before := pageTable.Contents();
      ok := pageTable.MigratePage(page, dst);
      newUtils := utils;
      if ok {
        ghost var after := pageTable.Contents();
        var m := LogMove(page, src, dst, timestamp);
        StepUtils(before, after, m, pageTable.pagesPerNode);
        var step := 1.0 / pageTable.pagesPerNode as real;
        newUtils := newUtils[src := newUtils[src] - step];
        newUtils := newUtils[dst := newUtils[dst] + step];
      }
    }

    /** Moves one page of a source to the then least utilised of the underloaded nodes. */
    method DrainOne(page: nat, src: nat, under: seq<nat>, timestamp: int, utils: seq<real>,
                    ghost start: Table, ghost over: seq<nat>, ghost moves: seq<MigrationEvent>)
      returns (ok: bool, newUtils: seq<real>, ghost m: MigrationEvent)
      requires pageTable.Valid() && Logged() && bandwidthGbps > 0.0
      requires src in over && under != [] && src < pageTable.numNodes
      requires forall i :: 0 <= i < |under| ==> under[i] < pageTable.numNodes
      requires page in Private(pageTable.Contents(), src)
      requires utils == Utils(pageTable.nodePages, pageTable.pagesPerNode)
      requires Round(start, pageTable.Contents(), moves, over, under)
      modifies this, pageTable
      ensures pageTable.Valid() && Logged()
      ensures newUtils == Utils(pageTable.nodePages, pageTable.pagesPerNode)
      ensures ok ==> !AllFull(old(pageTable.nodePages), pageTable.pagesPerNode, under)
      ensures ok ==> migrations == old(migrations) + [m] && m.page == page && m.src == src && m.timestamp == timestamp
                     && m.dst in under && PageSized(m) && pageTable.nextVirtual == old(pageTable.nextVirtual)
                     && Step(old(pageTable.Contents()), pageTable.Contents(), m)
                     && Round(start, pageTable.Contents(), moves + [m], over, under)
      ensures !ok ==> migrations == old(migrations) && pageTable.Contents() == old(pageTable.Contents())
                      && (src in under || AllFull(pageTable.nodePages, pageTable.pagesPerNode, under))
    {
      hide Round, Overloaded, Underloaded;
      ghost var before := pageTable.Contents();
      var dst := LeastUtilised(under, utils);
      forall n | n in under
        ensures |before.nodePages[dst]| <= |before.nodePages[n]| <= pageTable.pagesPerNode
      {
        LeastIsLeast(before.nodePages, pageTable.pagesPerNode, dst, n);
        FullIff(before, pageTable.pagesPerNode, n);
      }
      ok, newUtils := MovePage(page, src, dst, timestamp, utils);
      if ok {
        m := migrations[|migrations| - 1];
        StepInRound(start, before, pageTable.Contents(), m, moves, over, under);
      } else {
        m := MigrationEvent(page, src, dst, timestamp, 0, 0);
      }
    }

    /**
     * Moves the private pages of one source, coldest first, until the batch is used up. When fewer
     * pages move, the source has no private page left or every underloaded node is full.
     */
    method Drain(src: nat, under: seq<nat>, timestamp: int, utils: seq<real>, migrated: nat,
                 ghost start: Table, ghost over: seq<nat>, ghost moves: seq<MigrationEvent>)
      returns (total: nat, newUtils: seq<real>, ghost made: seq<MigrationEvent>)
      requires pageTable.Valid() && Logged() && bandwidthGbps > 0.0
      requires src in over && under != [] && src < pageTable.numNodes
      requires forall i :: 0 <= i < |under| ==> under[i] < pageTable.numNodes
      requires utils == Utils(pageTable.nodePages, pageTable.pagesPerNode)
      requires Round(start, pageTable.Contents(), moves, over, under)
      modifies this, pageTable
      ensures pageTable.Valid() && Logged()
      ensures newUtils == Utils(pageTable.nodePages, pageTable.pagesPerNode)
      ensures Round(start, pageTable.Contents(), moves + made, over, under)
      ensures total == migrated + |made| && (made != [] ==> total <= batchSize)
      ensures migrations == old(migrations) + made
      ensures pageTable.nextVirtual == old(pageTable.nextVirtual)
      ensures forall m :: m in made ==> m.src == src && m.timestamp == timestamp && PageSized(m)
      ensures Shifted(old(pageTable.nodePages), pageTable.nodePages, under, src !in under)
      ensures src !in under ==>
                && Coldest(start, Private(pageTable.Contents(), src), made)
                && (|| total >= batchSize || Private(pageTable.Contents(), src) == {}
                    || AllFull(pageTable.nodePages, pageTable.pagesPerNode, under))
    {
      hide Round, Coldest, AllFull, InOrder, Indexed, Books.Ok, Util, Utils, Shifted, Logged, NodeOk;
      var pages := Private(pageTable.Contents(), src);
      var key := map v | v in pages :: pageTable.table[v].accessCount;
      var order := SortPages(pages, key);
      CountsKept(start, pageTable.Contents(), moves, over, under, key);
      ghost var i;
      total, newUtils, made, i := DrainInOrder(order, key, src, under, timestamp, utils, migrated, start, over, moves);
      if src !in under {
        ghost var full := AllFull(pageTable.nodePages, pageTable.pagesPerNode, under);
        DrainedColdest(start, pageTable.Contents(), key, src, order, i, made, full);
        if i == |order| {
          InOrderDone(pageTable.Contents(), src, order, made, full);
        }
      }
    }

    /** Moves the pages of the order one after another. */
    method DrainInOrder(order: seq<nat>, ghost key: map<nat, nat>, src: nat, under: seq<nat>, timestamp: int,
                        utils: seq<real>, migrated: nat,
                        ghost start: Table, ghost over: seq<nat>, ghost moves: seq<MigrationEvent>)
      returns (total: nat, newUtils: seq<real>, ghost made: seq<MigrationEvent>, ghost i: nat)
      requires pageTable.Valid() && Logged() && bandwidthGbps > 0.0
      requires src in over && under != [] && src < pageTable.numNodes
      requires forall k :: 0 <= k < |under| ==> under[k] < pageTable.numNodes
      requires utils == Utils(pageTable.nodePages, pageTable.pagesPerNode)
      requires Round(start, pageTable.Contents(), moves, over, under)
      requires Ascending(order, key) && forall v :: v in order <==> v in Private(pageTable.Contents(), src)
      modifies this, pageTable
      ensures pageTable.Valid() && Logged()
      ensures newUtils == Utils(pageTable.nodePages, pageTable.pagesPerNode)
      ensures Round(start, pageTable.Contents(), moves + made, over, under)
      ensures total == migrated + |made| && (made != [] ==> total <= batchSize)
      ensures migrations == old(migrations) + made && pageTable.nextVirtual == old(pageTable.nextVirtual)
      ensures forall m :: m in made ==> m.src == src && m.timestamp == timestamp && PageSized(m)
      ensures Shifted(old(pageTable.nodePages), pageTable.nodePages, under, src !in under)
      ensures i == |order| || total >= batchSize
      ensures src !in under ==>
                InOrder(pageTable.Contents(), src, order, i, made,
                        AllFull(pageTable.nodePages, pageTable.pagesPerNode, under))
    {
      hide Round, AllFull, Step, Ascending, Util, Utils, InOrder, Indexed, Books.Ok, Shifted, Logged, NodeOk;
      total, newUtils, made := migrated, utils, [];
      assert moves + made == moves;
      ShiftedNone(pageTable.nodePages, under, src !in under);
      InOrderStart(pageTable.Contents(), src, order, AllFull(pageTable.nodePages, pageTable.pagesPerNode, under));
      var k := 0;
      while k < |order| && total < batchSize
        invariant pageTable.Valid() && Logged()
        invariant newUtils == Utils(pageTable.nodePages, pageTable.pagesPerNode)
        invariant Round(start, pageTable.Contents(), moves + made, over, under)
        invariant total == migrated + |made| && (made != [] ==> total <= batchSize)
        invariant migrations == old(migrations) + made && pageTable.nextVirtual == old(pageTable.nextVirtual)
        invariant k <= |order| && forall m :: m in made ==> m.src == src && m.timestamp == timestamp && PageSized(m)
        invariant Shifted(old(pageTable.nodePages), pageTable.nodePages, under, src !in under)
        invariant Waiting(pageTable.Contents(), src, order, k)
        invariant src !in under ==>
                    InOrder(pageTable.Contents(), src, order, k, made,
                            AllFull(pageTable.nodePages, pageTable.pagesPerNode, under))
      {
        ghost var before := pageTable.Contents();
        ghost var m;
        var ok;
        ok, newUtils, m := DrainOne(order[k], src, under, timestamp, newUtils, start, over, moves + made);
        if ok {
          StepShifts(old(pageTable.nodePages), before, pageTable.Contents(), m, under, src !in under);
          WaitingStep(pageTable.pagesPerNode, before, pageTable.Contents(), m, order, k, key);
          if src !in under {
            InOrderStep(pageTable.pagesPerNode, before, pageTable.Contents(), m, order, k, made,
                        AllFull(before.nodePages, pageTable.pagesPerNode, under),
                        AllFull(pageTable.nodePages, pageTable.pagesPerNode, under));
          }
          Snoc(moves, made, m);
          Snoc(old(migrations), made, m);
          made, total := made + [m], total + 1;
        } else if src !in under {
          InOrderStuck(before, src, order, k, made);
        }
        k := k + 1;
      }
      i := k;
    }

    /**
     * One round of load-balancing. Nothing happens unless the round is called for. Then at most a
     * batch of private pages moves from overloaded to underloaded nodes, and the log grows by exactly
     * the moves made. With a threshold that is not negative, each source gives its coldest pages, no
     * node that received one ends more than one page above any underloaded node, and a round that
     * stops short of its batch has exhausted the sources or the destinations.
     */
    method CheckAndMigrate(timestamp: int) returns (migrated: nat, ghost moves: seq<MigrationEvent>)
      requires pageTable.Valid() && Logged() && bandwidthGbps > 0.0
      modifies this, pageTable
      ensures pageTable.Valid() && Logged()
      ensures migrations == old(migrations) + moves && migrated == |moves| <= Max(batchSize, 0)
      ensures forall m :: m in moves ==> PageSized(m)
      ensures RoundMade(imbalanceThreshold, batchSize, pageTable.pagesPerNode, timestamp, old(pageTable.Contents()),
                        moves, pageTable.Contents())
    {
      hide ColdestFirst, Levelled, Relieves, Exhausted, DrainedTo, IsSelection, Books.Ok, Util, Mean;
      migrated, moves := 0, [];
      NoMoves(pageTable.Contents(), Utils(pageTable.nodePages, pageTable.pagesPerNode), imbalanceThreshold);
      var utils := Utils(pageTable.nodePages, pageTable.pagesPerNode);
      if utils == [] {
        return;
      }
      var spread := Spread(utils);
      if spread < imbalanceThreshold {
        return;
      }
      var over := SelectNodes(utils, imbalanceThreshold, true);
      var under := SelectNodes(utils, imbalanceThreshold, false);
      if over == [] || under == [] {
        NotTriggered(utils, imbalanceThreshold, over, under);
        return;
      }
      IsTriggered(utils, imbalanceThreshold, over, under);
      ghost var start := pageTable.table;
      migrated, moves := MigrateFrom(over, under, timestamp, utils);
      RoundResult(start, pageTable.Contents(), pageTable.pagesPerNode, utils, imbalanceThreshold, over, under, moves,
                  migrated >= batchSize);
    }

    /** Drains the sources one after another until the batch is used up. */
    method MigrateFrom(over: seq<nat>, under: seq<nat>, timestamp: int, utils0: seq<real>)
      returns (migrated: nat, ghost moves: seq<MigrationEvent>)
      requires pageTable.Valid() && Logged() && bandwidthGbps > 0.0 && under != []
      requires utils0 == Utils(pageTable.nodePages, pageTable.pagesPerNode)
      requires forall i :: 0 <= i < |over| ==> over[i] < pageTable.numNodes
      requires forall i :: 0 <= i < |under| ==> under[i] < pageTable.numNodes
      modifies this, pageTable
      ensures pageTable.Valid() && Logged()
      ensures migrations == old(migrations) + moves && migrated == |moves| <= Max(batchSize, 0)
      ensures Round(old(pageTable.table), pageTable.Contents(), moves, over, under)
      ensures pageTable.nextVirtual == old(pageTable.nextVirtual)
      ensures forall m :: m in moves ==> m.timestamp == timestamp && PageSized(m)
      ensures Apart(over, under) ==>
                && ColdestFirst(old(pageTable.table), pageTable.Contents(), moves)
                && DrainedTo(pageTable.Contents(), pageTable.pagesPerNode, over, |over|, under, migrated >= batchSize)
    {
      hide Round, ColdestFirst, DrainedTo, Shifted, Coldest, AllFull, Books.Ok, Util, Utils;
      ghost var start := pageTable.table;
      var utils := utils0;
      migrated, moves := 0, [];
      RoundStart(pageTable.Contents(), pageTable.pagesPerNode, over, under, 0 >= batchSize);
      for i := 0 to |over|
        invariant pageTable.Valid() && Logged()
        invariant utils == Utils(pageTable.nodePages, pageTable.pagesPerNode)
        invariant migrations == old(migrations) + moves && migrated == |moves| <= Max(batchSize, 0)
        invariant Round(start, pageTable.Contents(), moves, over, under)
        invariant pageTable.nextVirtual == old(pageTable.nextVirtual)
        invariant forall m :: m in moves ==> m.timestamp == timestamp && PageSized(m)
        invariant Apart(over, under) ==>
                    && ColdestFirst(start, pageTable.Contents(), moves)
                    && DrainedTo(pageTable.Contents(), pageTable.pagesPerNode, over, i, under, migrated >= batchSize)
      {
        if migrated >= batchSize {
          DrainedByBatch(pageTable.Contents(), pageTable.pagesPerNode, over, |over|, under);
          break;
        }
        ghost var before, made := pageTable.Contents(), [];
        migrated, utils, made := Drain(over[i], under, timestamp, utils, migrated, start, over, moves);
        if Apart(over, under) {
          SourceDone(start, before, pageTable.Contents(), pageTable.pagesPerNode, over, i, under, moves, made,
                     migrated >= batchSize);
        }
        moves := moves + made;
      }
    }

    /**
     * Compacts the pages of one node in place, in the order of their physical ids. The free list and
     * the bump pointer stay as they were. `steps` are the tables the loop goes through.
     */
    method Defragment(node: nat) returns (compacted: nat, ghost steps: seq<Table>)
      requires pageTable.Valid() && node < pageTable.numNodes
      modifies pageTable`table
      ensures pageTable.Contents() == Compacted(old(pageTable.Contents()), node)
      ensures compacted == |ChangedIds(old(pageTable.table), pageTable.table)|
      ensures compacted == 0 <==> pageTable.Contents() == old(pageTable.Contents())
      ensures |steps| == |pageTable.nodePages[node]| + 1 && steps[|steps| - 1] == pageTable.table
      ensures Stepwise(old(pageTable.table), pageTable.nodePages[node], steps)
    {
      hide Rank, Ranked, Partly, Injective, Indexed, Books.Ok, Ascending, NodeOk, Range, Stepwise, ChangedIds;
      var pages := pageTable.nodePages[node];
      var key := pageTable.Contents().Live(node);
      ghost var start := pageTable.table;
      CompactedLive(pageTable.Contents(), pageTable.pagesPerNode, node);
      var order := SortPages(pages, key);
      SortedSize(pages, key, order);
      PartlyEnds(start, pages, |order|);
      compacted, steps := CompactPages(pages, order);
    }

    /** Gives the pages, in their order, the ids from 0 on. */
    method CompactPages(ghost pages: set<nat>, order: seq<nat>) returns (compacted: nat, ghost steps: seq<Table>)
      requires var key := PhysOn(pageTable.table, pages);
               && Injective(key) && Ascending(order, key) && (forall v :: v in order <==> v in key)
      modifies pageTable`table
      ensures pageTable.table == Partly(old(pageTable.table), pages, |order|)
      ensures compacted == |ChangedIds(old(pageTable.table), pageTable.table)|
      ensures compacted == 0 <==> pageTable.table == old(pageTable.table)
      ensures |steps| == |order| + 1 && steps[|order|] == pageTable.table
      ensures Stepwise(old(pageTable.table), pages, steps)
    {
      hide Rank, Ranked, Partly, Injective, Ascending, Stepwise, ChangedIds, PhysOn;
      ghost var start := pageTable.table;
      PartlyStart(start, pages);
      OneStepMore(start, pages, []);
      NoChangedIds(start);
      compacted, steps := 0, [start];
      for i := 0 to |order|
        invariant pageTable.table == Partly(start, pages, i)
        invariant |steps| == i + 1 && steps[i] == pageTable.table && Stepwise(start, pages, steps)
        invariant compacted == |ChangedIds(start, pageTable.table)| && (compacted == 0 <==> pageTable.table == start)
      {
        DefragmentStep(start, pages, order, i);
        var page := pageTable.table[order[i]];
        if page.phys != i {
          OneChangedId(start, pageTable.table, order[i], i);
          pageTable.table := pageTable.table[order[i] := page.(phys := i)];
          compacted := compacted + 1;
        }
        OneStepMore(start, pages, steps);
        steps := steps + [pageTable.table];
      }
    }
  }
}
