/** What compacting a node's pages does to the accounts (scripts/host_os_scheduler.py, DynamicMigrator.defragment). */
module Compaction {
  import opened PageTable

  /** The pages whose id lies below `bound`. */
  function Below(live: map<nat, nat>, bound: nat): set<nat> {
    set w | w in live && live[w] < bound
  }

  /** How many of the pages sit below page `v`. */
  function Rank(live: map<nat, nat>, v: nat): nat {
    if v in live then |Below(live, live[v])| else 0
  }

  /** The table with every page of `pages` at its rank. */
  function Ranked(table: Table, pages: set<nat>): Table {
    var live := PhysOn(table, pages);
    map v | v in table :: if v in pages then table[v].(phys := Rank(live, v)) else table[v]
  }

  function Compacted(b: Books, node: nat): Books
    requires node < |b.nodePages|
  {
    b.(table := Ranked(b.table, b.nodePages[node]))
  }

  ghost predicate Injective(live: map<nat, nat>) {
    forall v, w :: v in live && w in live && v != w ==> live[v] != live[w]
  }

  lemma {:induction false} SmallerSubset(a: set<nat>, b: set<nat>)
    requires a < b
    ensures |a| < |b|
  {
    assert b == a + (b - a);
    assert b - a != {};
  }

  /** Ranks are below the number of pages, and keep the order of the ids. */
  lemma {:induction false} RankOrder(live: map<nat, nat>, v: nat, w: nat)
    requires Injective(live) && v in live && w in live
    ensures Rank(live, v) < |live|
    ensures Rank(live, v) < Rank(live, w) <==> live[v] < live[w]
    ensures Rank(live, v) == Rank(live, w) <==> v == w
  {
    var below, belowW := Below(live, live[v]), Below(live, live[w]);
    assert v in live.Keys && v !in below && below <= live.Keys;
    SmallerSubset(below, live.Keys);
    if live[v] < live[w] {
      assert v in belowW && below <= belowW;
      SmallerSubset(below, belowW);
    } else if live[w] < live[v] {
      assert w in below && w !in belowW && belowW <= below;
      SmallerSubset(belowW, below);
    }
  }

  /** Compaction puts the pages exactly onto 0 .. k - 1. */
  lemma {:induction false} RanksOnto(live: map<nat, nat>, ranked: map<nat, nat>)
    requires Injective(live) && ranked.Keys == live.Keys
    requires forall v :: v in live ==> ranked[v] == Rank(live, v)
    ensures Injective(ranked) && ranked.Values == Range(|live|)
  {
    forall v, w | v in ranked && w in ranked && v != w
      ensures ranked[v] != ranked[w]
    {
      RankOrder(live, v, w);
    }
    forall x | x in ranked.Values
      ensures x in Range(|live|)
    {
      var v :| v in ranked && ranked[v] == x;
      RankOrder(live, v, v);
    }
    assert |ranked| == |ranked.Keys| == |live.Keys| == |live|;
    ValuesSize(ranked);
    SubsetOfSameSize(ranked.Values, Range(|live|));
  }

  /** Distinct ids lie at or above their ranks: compaction only ever moves a page down. */
  lemma {:induction false} RankAtMost(live: map<nat, nat>, v: nat)
    requires Injective(live) && v in live
    ensures Rank(live, v) <= live[v]
  {
    var below := map w | w in live && live[w] < live[v] :: live[w];
    assert below.Keys == Below(live, live[v]);
    ValuesSize(below);
    assert below.Values <= Range(live[v]);
    SubsetSize(below.Values, Range(live[v]));
  }

  lemma {:induction false} SubsetSize(a: set<nat>, b: set<nat>)
    requires a <= b
    ensures |a| <= |b|
  {
    if a != b {
      SmallerSubset(a, b);
    }
  }

  lemma {:induction false} RankedLive(table: Table, pages: set<nat>, others: set<nat>)
    ensures PhysOn(Ranked(table, pages), pages).Keys == PhysOn(table, pages).Keys
    ensures forall v :: v in PhysOn(table, pages) ==>
              PhysOn(Ranked(table, pages), pages)[v] == Rank(PhysOn(table, pages), v)
    ensures others !! pages ==> PhysOn(Ranked(table, pages), others) == PhysOn(table, others)
  {
  }

  lemma {:induction false} CompactedLive(b: Books, capacity: nat, node: nat)
    requires b.Ok(capacity) && node < b.Nodes()
    ensures var c, live := Compacted(b, node), b.Live(node);
            && Injective(live) && live.Keys == c.Live(node).Keys == b.nodePages[node] && |live| == |b.nodePages[node]|
            && forall v :: v in live ==> c.Live(node)[v] == Rank(live, v)
  {
    assert b.BalancedAt(node, capacity);
    PhysSize(b.table, b.nodePages, b.nextVirtual, node);
    RankedLive(b.table, b.nodePages[node], {});
  }

  /** The other nodes and the reverse index are not affected. */
  lemma {:induction false} CompactedOthers(b: Books, capacity: nat, node: nat)
    requires b.Ok(capacity) && node < b.Nodes()
    ensures var c := Compacted(b, node);
            && Indexed(c.table, c.nodePages, c.nextVirtual)
            && forall n :: 0 <= n < b.Nodes() && n != node ==> c.Live(n) == b.Live(n) && c.BalancedAt(n, capacity)
  {
    var c := Compacted(b, node);
    CompactedIndexed(b, node);
    forall n | 0 <= n < b.Nodes() && n != node
      ensures c.Live(n) == b.Live(n) && c.BalancedAt(n, capacity)
    {
      hide Compacted, NodeOk;
      OtherKept(b, capacity, node, n);
    }
  }

  lemma {:induction false} CompactedIndexed(b: Books, node: nat)
    requires Indexed(b.table, b.nodePages, b.nextVirtual) && node < b.Nodes()
    ensures var c := Compacted(b, node); Indexed(c.table, c.nodePages, c.nextVirtual)
  {
  }

  lemma {:induction false} OtherKept(b: Books, capacity: nat, node: nat, n: nat)
    requires b.Ok(capacity) && node < b.Nodes() && n < b.Nodes() && n != node
    ensures Compacted(b, node).Live(n) == b.Live(n) && Compacted(b, node).BalancedAt(n, capacity)
  {
    assert b.BalancedAt(n, capacity);
    assert b.nodePages[n] !! b.nodePages[node];
    RankedLive(b.table, b.nodePages[node], b.nodePages[n]);
  }

  /** The node's live pages end exactly on 0 .. k - 1, in the order they had. */
  lemma {:induction false} CompactedOnto(b: Books, capacity: nat, node: nat)
    requires b.Ok(capacity) && node < b.Nodes()
    ensures var before, after := b.Live(node), Compacted(b, node).Live(node);
            && before.Keys == after.Keys == b.nodePages[node]
            && Injective(after) && after.Values == Range(|b.nodePages[node]|)
            && forall v, w :: v in before && w in before ==> (after[v] < after[w] <==> before[v] < before[w])
  {
    var before, after := b.Live(node), Compacted(b, node).Live(node);
    CompactedLive(b, capacity, node);
    RanksOnto(before, after);
    forall v, w | v in before && w in before
      ensures after[v] < after[w] <==> before[v] < before[w]
    {
      RankOrder(before, v, w);
    }
  }

  /** No freed id of the node lies below its number of live pages. */
  predicate FreeAbove(b: Books, node: nat)
    requires node < |b.nodePages| == |b.freeLists|
  {
    forall f :: f in b.freeLists[node] ==> |b.nodePages[node]| <= f
  }

  /**
   * Defragmentation leaves the free list and the bump pointer as they were, so the allocator's
   * accounts survive exactly when no freed id lies below the number of live pages.
   */
  lemma {:induction false} CompactedOkIff(b: Books, capacity: nat, node: nat)
    requires b.Ok(capacity) && node < b.Nodes()
    ensures Compacted(b, node).Ok(capacity) <==> FreeAbove(b, node)
  {
    CompactedBalancedIff(b, capacity, node);
    CompactedOthers(b, capacity, node);
    if FreeAbove(b, node) {
      AllBalanced(Compacted(b, node), capacity, node);
    } else {
      assert !Compacted(b, node).BalancedAt(node, capacity);
    }
  }

  lemma {:induction false} CompactedBalancedIff(b: Books, capacity: nat, node: nat)
    requires b.Ok(capacity) && node < b.Nodes()
    ensures Compacted(b, node).BalancedAt(node, capacity) <==> FreeAbove(b, node)
  {
    var live := Compacted(b, node).Live(node);
    assert b.BalancedAt(node, capacity);
    CompactedLive(b, capacity, node);
    CompactedOnto(b, capacity, node);
    ValuesSize(live);
    OntoBalancedIff(b.Live(node), live, b.freeLists[node], b.nextPhysical[node], capacity);
  }

  lemma {:induction false} OntoBalancedIff(before: map<nat, nat>, live: map<nat, nat>, free: seq<nat>, next: nat,
                                           capacity: nat)
    requires NodeOk(before, free, next, capacity)
    requires Injective(live) && |live| == |before| && live.Values == Range(|live|)
    ensures NodeOk(live, free, next, capacity) <==> forall f :: f in free ==> |live| <= f
  {
    if f :| f in free && f < |live| {
      assert f in live.Values;
      var v :| v in live && live[v] == f;
    } else {
      forall v | v in live
        ensures live[v] < next && live[v] !in free
      {
        assert live[v] in live.Values;
      }
    }
  }

  /** That is the case only when there was nothing to compact. */
  lemma {:induction false} FreeAboveIff(b: Books, capacity: nat, node: nat)
    requires b.Ok(capacity) && node < b.Nodes()
    ensures FreeAbove(b, node) <==> Compacted(b, node) == b
  {
    if FreeAbove(b, node) {
      AlreadyCompact(b, capacity, node);
      forall v | v in b.table
        ensures Compacted(b, node).table[v] == b.table[v]
      {
        if v in b.nodePages[node] {
          assert v in b.Live(node);
        }
      }
      assert Compacted(b, node).table == b.table;
    } else if Compacted(b, node) == b {
      CompactedOkIff(b, capacity, node);
    }
  }

  lemma {:induction false} AlreadyCompact(b: Books, capacity: nat, node: nat)
    requires b.Ok(capacity) && node < b.Nodes() && FreeAbove(b, node)
    ensures forall v :: v in b.Live(node) ==> Rank(b.Live(node), v) == b.Live(node)[v]
  {
    var live, k := b.Live(node), |b.nodePages[node]|;
    assert b.BalancedAt(node, capacity);
    NodeAccounts(b, capacity, node);
    PhysSize(b.table, b.nodePages, b.nextVirtual, node);
    ValuesSize(live);
    forall x | x in Range(k)
      ensures x in live.Values
    {
      assert x in Range(b.nextPhysical[node]);
      assert x !in Elements(b.freeLists[node]);
    }
    SubsetOfSameSize(Range(k), live.Values);
    forall v | v in live
      ensures Rank(live, v) == live[v]
    {
      OntoRank(live, v);
    }
  }

  lemma {:induction false} OntoRank(live: map<nat, nat>, v: nat)
    requires Injective(live) && live.Values == Range(|live|) && v in live
    ensures Rank(live, v) == live[v]
  {
    var below := map w | w in live && live[w] < live[v] :: live[w];
    assert below.Keys == Below(live, live[v]);
    ValuesSize(below);
    assert live[v] in live.Values;
    forall x | x in Range(live[v])
      ensures x in below.Values
    {
      assert x in live.Values;
      var w :| w in live && live[w] == x;
      assert w in below;
    }
    assert below.Values == Range(live[v]);
  }

  /** If it was not, some freed id is in use afterwards, ready to be handed out a second time. */
  lemma {:induction false} CompactedCollides(b: Books, capacity: nat, node: nat)
    requires b.Ok(capacity) && node < b.Nodes() && Compacted(b, node) != b
    ensures exists f, v :: f in b.freeLists[node] && v in Compacted(b, node).Live(node)
                           && Compacted(b, node).Live(node)[v] == f
  {
    FreeAboveIff(b, capacity, node);
    CompactedOnto(b, capacity, node);
    var c := Compacted(b, node);
    var f :| f in b.freeLists[node] && f < |b.nodePages[node]|;
    assert f in c.Live(node).Values;
    var v :| v in c.Live(node) && c.Live(node)[v] == f;
  }

  /** The accounts of a single node after two allocations and the freeing of the first page. */
  function AfterFree(): Books {
    var page := KVPage(1, 0, 1, 0, Allocated, 0, 0, false, 1);
    Books(map[1 := page], [{1}], [2], [[0]], 2)
  }

  /** They are reached by the allocator's own steps from an empty node. */
  lemma {:induction false} AfterFreeReached()
    ensures var one := Entered(Books(map[], [{}], [0], [[]], 0), 0, 0, false, 0);
            one.Shaped() && one.Nodes() == 1
            && var two := Entered(one, 0, 0, false, 0);
               0 in two.table && two.table[0].node == 0 && |two.nodePages| == |two.freeLists| == 1
               && AfterFree() == Removed(two, 0)
  {
    hide Books.Ok;
    var first := KVPage(0, 0, 0, 0, Allocated, 0, 0, false, 1);
    var second := KVPage(1, 0, 1, 0, Allocated, 0, 0, false, 1);
    var one := Entered(Books(map[], [{}], [0], [[]], 0), 0, 0, false, 0);
    assert one.nodePages[0] == {0};
    assert one.table == map[0 := first] && one.nodePages == [{0}] && one.nextPhysical == [1];
    assert one == Books(map[0 := first], [{0}], [1], [[]], 1);
    var two := Entered(one, 0, 0, false, 0);
    assert two.nodePages[0] == {0, 1};
    assert two.table == map[0 := first][1 := second] && two.nodePages == [{0, 1}] && two.nextPhysical == [2];
    assert two == Books(map[0 := first][1 := second], [{0, 1}], [2], [[]], 2);
    assert Removed(two, 0).table == map[1 := second];
    assert Removed(two, 0).nodePages[0] == {1} && Removed(two, 0).freeLists[0] == [0];
    assert Removed(two, 0).nodePages == [{1}] && Removed(two, 0).freeLists == [[0]];
  }

  lemma {:induction false} AfterFreeOk()
    ensures AfterFree().Ok(2) && !FreeAbove(AfterFree(), 0)
  {
    var b := AfterFree();
    var live := b.Live(0);
    assert forall v :: v in live <==> v == 1;
    assert live[1] == 1;
    assert live == map[1 := 1];
    assert |live| == 1;
    assert b.BalancedAt(0, 2);
    assert 0 in b.freeLists[0] && |b.nodePages[0]| == 1;
  }

  /** They are in order, and compaction puts them out of order. */
  lemma {:induction false} CompactionFails()
    ensures AfterFree().Ok(2) && !Compacted(AfterFree(), 0).Ok(2)
  {
    hide AfterFree, Books.Ok, FreeAbove, Compacted;
    AfterFreeOk();
    AfterFreeNode();
    CompactedOkIff(AfterFree(), 2, 0);
  }

  lemma {:induction false} AfterFreeNode()
    ensures AfterFree().Nodes() == 1 && AfterFree().Shaped()
  {
  }

  function Reset(b: Books, node: nat): Books
    requires b.Shaped() && node < b.Nodes()
  {
    var c := Compacted(b, node);
    c.(freeLists := c.freeLists[node := []], nextPhysical := c.nextPhysical[node := |b.nodePages[node]|])
  }

  /** A compaction that also resets the free list and the bump pointer keeps the accounts. */
  lemma {:induction false} ResetKeepsOk(b: Books, capacity: nat, node: nat)
    requires b.Ok(capacity) && node < b.Nodes()
    ensures Reset(b, node).Ok(capacity)
  {
    var r := Reset(b, node);
    CompactedOthers(b, capacity, node);
    ResetBalanced(b, capacity, node);
    forall n | 0 <= n < b.Nodes() && n != node
      ensures r.BalancedAt(n, capacity)
    {
      assert Compacted(b, node).BalancedAt(n, capacity);
      assert r.Live(n) == Compacted(b, node).Live(n);
    }
    AllBalanced(r, capacity, node);
  }

  lemma {:induction false} ResetBalanced(b: Books, capacity: nat, node: nat)
    requires b.Ok(capacity) && node < b.Nodes()
    ensures Reset(b, node).BalancedAt(node, capacity)
  {
    var live := Compacted(b, node).Live(node);
    FullIff(b, capacity, node);
    CompactedOnto(b, capacity, node);
    ValuesSize(live);
    forall v | v in live
      ensures live[v] < |b.nodePages[node]|
    {
      assert live[v] in live.Values;
    }
    assert Reset(b, node).Live(node) == live;
  }

  // ------------------------------------------------------------ half-way through

  /** The table once the `i` lowest pages have been put at their ranks. */
  function Partly(table: Table, pages: set<nat>, i: nat): Table {
    var live := PhysOn(table, pages);
    map v | v in table :: if v in pages && Rank(live, v) < i then table[v].(phys := Rank(live, v)) else table[v]
  }

  lemma {:induction false} PartlyStart(table: Table, pages: set<nat>)
    ensures Partly(table, pages, 0) == table
  {
  }

  lemma {:induction false} PartlyEnds(table: Table, pages: set<nat>, i: nat)
    requires Injective(PhysOn(table, pages)) && |PhysOn(table, pages)| <= i
    ensures Partly(table, pages, 0) == table
    ensures Partly(table, pages, i) == Ranked(table, pages)
  {
    var live := PhysOn(table, pages);
    forall v | v in table && v in pages
      ensures Rank(live, v) < i
    {
      RankOrder(live, v, v);
    }
  }

  /** Putting the page of rank `i` in its place. */
  lemma {:induction false} PartlyStep(table: Table, pages: set<nat>, i: nat, v: nat)
    requires Injective(PhysOn(table, pages)) && v in table && v in pages && Rank(PhysOn(table, pages), v) == i
    ensures v in Partly(table, pages, i) && Partly(table, pages, i)[v] == table[v]
    ensures Partly(table, pages, i + 1) == Partly(table, pages, i)[v := table[v].(phys := i)]
  {
    var live := PhysOn(table, pages);
    forall w | w in table && w in pages && w != v
      ensures Rank(live, w) < i + 1 <==> Rank(live, w) < i
    {
      RankOrder(live, v, w);
    }
  }

  /** Even half-way through no two live pages share a physical id. */
  lemma {:induction false} PartlyInjective(table: Table, pages: set<nat>, i: nat)
    requires Injective(PhysOn(table, pages))
    ensures Injective(PhysOn(Partly(table, pages, i), pages))
  {
    var live := PhysOn(table, pages);
    var now := PhysOn(Partly(table, pages, i), pages);
    forall v, w | v in now && w in now && v != w
      ensures now[v] != now[w]
    {
      RankOrder(live, v, w);
      RankAtMost(live, v);
      RankAtMost(live, w);
    }
  }

  /** In an ascending order of all the pages, the page at `i` has rank `i`. */
  lemma {:induction false} AscendingRank(live: map<nat, nat>, order: seq<nat>, i: nat)
    requires Injective(live) && i < |order| && forall v :: v in order <==> v in live
    requires forall j, k :: 0 <= j < k < |order| ==> order[j] != order[k] && live[order[j]] <= live[order[k]]
    ensures Rank(live, order[i]) == i
  {
    var first := order[..i];
    DistinctSize(first);
    forall w
      ensures w in Elements(first) <==> w in Below(live, live[order[i]])
    {
      if w in live {
        var k :| 0 <= k < |order| && order[k] == w;
        assert k < i ==> first[k] == w;
        assert live[order[i]] != live[order[k]] || i == k;
      }
    }
    assert Elements(first) == Below(live, live[order[i]]);
  }

  /** There are as many entries in the order as there are pages. */
  lemma {:induction false} OrderSize(pages: set<nat>, order: seq<nat>)
    requires forall v :: v in order <==> v in pages
    requires forall j, k :: 0 <= j < k < |order| ==> order[j] != order[k]
    ensures |order| == |pages|
  {
    DistinctSize(order);
    assert Elements(order) == pages;
  }
}
