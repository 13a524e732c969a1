/** The global KV page table (scripts/host_os_scheduler.py): allocation, freeing and migration of pages. */
module PageTable {
  import opened Wrappers

  datatype PageState = Free | Allocated | Migrating | Shared

  datatype KVPage = KVPage(
    virt: nat, node: nat, phys: nat, req: int, state: PageState,
    accessCount: nat, lastAccess: int, isShared: bool, refCount: int)

  type Table = map<nat, KVPage>

  // ------------------------------------------------------------ one node's physical ids

  /** The physical ids that the given virtual pages use. */
  function PhysOn(table: Table, pages: set<nat>): map<nat, nat> {
    map v | v in pages && v in table :: table[v].phys
  }

  /**
   * The accounts of one node: live ids are distinct, free ids are distinct, none is both, all lie
   * below the bump pointer, and together they are as many as the bump pointer says.
   */
  ghost predicate NodeOk(live: map<nat, nat>, free: seq<nat>, next: nat, capacity: nat) {
    && (forall v, w :: v in live && w in live && v != w ==> live[v] != live[w])
    && (forall v :: v in live ==> live[v] < next && live[v] !in free)
    && (forall i :: 0 <= i < |free| ==> free[i] < next)
    && (forall i, j :: 0 <= i < j < |free| ==> free[i] != free[j])
    && |live| + |free| == next <= capacity
  }

  /** The accounts of a node while one id, `p`, is neither live nor free. */
  ghost predicate Reserved(live: map<nat, nat>, free: seq<nat>, next: nat, capacity: nat, p: nat) {
    && (forall v, w :: v in live && w in live && v != w ==> live[v] != live[w])
    && (forall v :: v in live ==> live[v] < next && live[v] !in free && live[v] != p)
    && (forall i :: 0 <= i < |free| ==> free[i] < next && free[i] != p)
    && (forall i, j :: 0 <= i < j < |free| ==> free[i] != free[j])
    && |live| + |free| + 1 == next <= capacity
    && p < next
  }

  lemma {:induction false} TakeFreed(live: map<nat, nat>, free: seq<nat>, next: nat, capacity: nat)
    requires NodeOk(live, free, next, capacity) && free != []
    ensures Reserved(live, free[..|free| - 1], next, capacity, free[|free| - 1])
  {
  }

  lemma {:induction false} TakeFresh(live: map<nat, nat>, next: nat, capacity: nat)
    requires NodeOk(live, [], next, capacity) && next < capacity
    ensures Reserved(live, [], next + 1, capacity, next)
  {
  }

  lemma {:induction false} Place(live: map<nat, nat>, free: seq<nat>, next: nat, capacity: nat, v: nat, p: nat)
    requires Reserved(live, free, next, capacity, p) && v !in live
    ensures NodeOk(live[v := p], free, next, capacity)
  {
  }

  lemma {:induction false} Release(live: map<nat, nat>, free: seq<nat>, next: nat, capacity: nat, v: nat)
    requires NodeOk(live, free, next, capacity) && v in live
    ensures NodeOk(live - {v}, free + [live[v]], next, capacity)
  {
    assert (live - {v})[v := live[v]] == live;
  }

  function Range(n: nat): (s: set<nat>)
    ensures forall i: nat :: i in s <==> i < n
    ensures |s| == n
  {
    if n == 0 then {} else Range(n - 1) + {n - 1}
  }

  function Elements(s: seq<nat>): set<nat> {
    set x | x in s
  }

  lemma {:induction false} DistinctSize(s: seq<nat>)
    requires forall i, j :: 0 <= i < j < |s| ==> s[i] != s[j]
    ensures |Elements(s)| == |s|
  {
    if s != [] {
      var rest, last := s[..|s| - 1], s[|s| - 1];
      DistinctSize(rest);
      assert last !in rest;
      assert Elements(s) == Elements(rest) + {last};
    }
  }

  lemma {:induction false} ValuesSize(m: map<nat, nat>)
    requires forall v, w :: v in m && w in m && v != w ==> m[v] != m[w]
    ensures |m.Values| == |m|
  {
    if m != map[] {
      var v :| v in m;
      var rest := m - {v};
      assert rest[v := m[v]] == m;
      ValuesSize(rest);
      assert m.Values == rest.Values + {m[v]};
      assert |m| == |rest| + 1;
    }
  }

  lemma {:induction false} SubsetOfSameSize(a: set<nat>, b: set<nat>)
    requires a <= b && |a| == |b|
    ensures a == b
  {
    assert b == a + (b - a);
    assert |b| == |a| + |b - a|;
  }

  /** Live and free ids together are exactly 0 .. next - 1, and none is both. */
  lemma {:induction false} Accounted(live: map<nat, nat>, free: seq<nat>, next: nat, capacity: nat)
    requires NodeOk(live, free, next, capacity)
    ensures live.Values + Elements(free) == Range(next)
    ensures live.Values !! Elements(free)
  {
    var ids := Elements(free);
    forall x | x in live.Values
      ensures x !in ids && x < next
    {
      var v :| v in live && live[v] == x;
    }
    ValuesSize(live);
    DistinctSize(free);
    SubsetOfSameSize(live.Values + ids, Range(next));
  }

  // ------------------------------------------------------------ the reverse index

  /** The reverse index partitions the virtual pages by node. */
  ghost predicate Indexed(table: Table, nodePages: seq<set<nat>>, nextVirtual: nat) {
    && (forall v :: v in table ==>
          table[v].virt == v < nextVirtual && table[v].node < |nodePages| && v in nodePages[table[v].node])
    && (forall n, v :: 0 <= n < |nodePages| && v in nodePages[n] ==> v in table && table[v].node == n)
  }

  lemma {:induction false} PhysSize(table: Table, nodePages: seq<set<nat>>, nextVirtual: nat, n: nat)
    requires Indexed(table, nodePages, nextVirtual) && n < |nodePages|
    ensures |PhysOn(table, nodePages[n])| == |nodePages[n]| && PhysOn(table, nodePages[n]).Keys == nodePages[n]
  {
    assert PhysOn(table, nodePages[n]).Keys == nodePages[n];
  }

  lemma {:induction false} IndexedAdd(table: Table, nodePages: seq<set<nat>>, nextVirtual: nat, p: KVPage)
    requires Indexed(table, nodePages, nextVirtual) && p.virt == nextVirtual && p.node < |nodePages|
    ensures Indexed(table[p.virt := p], nodePages[p.node := nodePages[p.node] + {p.virt}], nextVirtual + 1)
  {
    assert p.virt !in table;
  }

  lemma {:induction false} IndexedRemove(table: Table, nodePages: seq<set<nat>>, nextVirtual: nat, v: nat)
    requires Indexed(table, nodePages, nextVirtual) && v in table
    ensures Indexed(table - {v}, nodePages[table[v].node := nodePages[table[v].node] - {v}], nextVirtual)
  {
  }

  lemma {:induction false} IndexedMove(table: Table, nodePages: seq<set<nat>>, nextVirtual: nat, v: nat, p: KVPage)
    requires Indexed(table, nodePages, nextVirtual) && v in table && p.virt == v
    requires p.node < |nodePages| && p.node != table[v].node
    ensures Indexed(table[v := p], Moved(nodePages, v, table[v].node, p.node), nextVirtual)
  {
  }

  function Moved(nodePages: seq<set<nat>>, v: nat, src: nat, dst: nat): seq<set<nat>>
    requires src < |nodePages| && dst < |nodePages|
  {
    var without := nodePages[src := nodePages[src] - {v}];
    without[dst := without[dst] + {v}]
  }

  // ------------------------------------------------------------ all nodes

  /** The fields that hold the accounts. */
  datatype Books = Books(table: Table, nodePages: seq<set<nat>>, nextPhysical: seq<nat>, freeLists: seq<seq<nat>>,
                         nextVirtual: nat)
  {
    function Nodes(): nat { |nodePages| }

    predicate Shaped() {
      |nodePages| == |nextPhysical| == |freeLists|
    }

    function Live(n: nat): map<nat, nat>
      requires n < |nodePages|
    {
      PhysOn(table, nodePages[n])
    }

    ghost predicate BalancedAt(n: nat, capacity: nat)
      requires Shaped() && n < Nodes()
    {
      NodeOk(Live(n), freeLists[n], nextPhysical[n], capacity)
    }

    ghost predicate Ok(capacity: nat) {
      && Shaped() && Indexed(table, nodePages, nextVirtual)
      && forall n :: 0 <= n < Nodes() ==> BalancedAt(n, capacity)
    }

    /** In order, except that the id `p` of `node` has been taken and not yet used. */
    ghost predicate OkButReserved(capacity: nat, node: nat, p: nat) {
      && Shaped() && Indexed(table, nodePages, nextVirtual) && node < Nodes()
      && Reserved(Live(node), freeLists[node], nextPhysical[node], capacity, p)
      && forall n :: 0 <= n < Nodes() && n != node ==> BalancedAt(n, capacity)
    }
  }

  /** What validity says about a node. */
  lemma {:induction false} NodeAccounts(b: Books, capacity: nat, n: nat)
    requires b.Ok(capacity) && n < b.Nodes()
    ensures |b.nodePages[n]| <= capacity && b.Live(n).Keys == b.nodePages[n]
    ensures b.Live(n).Values + Elements(b.freeLists[n]) == Range(b.nextPhysical[n])
    ensures b.Live(n).Values !! Elements(b.freeLists[n])
    ensures |b.nodePages[n]| == capacity <==> b.freeLists[n] == [] && b.nextPhysical[n] == capacity
  {
    assert b.BalancedAt(n, capacity);
    PhysSize(b.table, b.nodePages, b.nextVirtual, n);
    Accounted(b.Live(n), b.freeLists[n], b.nextPhysical[n], capacity);
  }

  /** A node is full exactly when it holds its capacity of live pages. */
  lemma {:induction false} FullIff(b: Books, capacity: nat, n: nat)
    requires b.Ok(capacity) && n < b.Nodes()
    ensures |b.nodePages[n]| <= capacity
    ensures |b.nodePages[n]| == capacity <==> b.freeLists[n] == [] && b.nextPhysical[n] == capacity
    ensures b.nextPhysical[n] <= capacity
  {
    NodeAccounts(b, capacity, n);
    assert b.BalancedAt(n, capacity);
  }

  /** The accounts once the most recently freed id of the node has been taken. */
  function TakenFreed(b: Books, node: nat): Books
    requires node < |b.freeLists| && b.freeLists[node] != []
  {
    b.(freeLists := b.freeLists[node := b.freeLists[node][..|b.freeLists[node]| - 1]])
  }

  /** The accounts once the next fresh id of the node has been taken. */
  function TakenFresh(b: Books, node: nat): Books
    requires node < |b.nextPhysical|
  {
    b.(nextPhysical := b.nextPhysical[node := b.nextPhysical[node] + 1])
  }

  lemma {:induction false} ReserveFreed(b: Books, capacity: nat, node: nat)
    requires b.Ok(capacity) && node < b.Nodes() && b.freeLists[node] != []
    ensures TakenFreed(b, node).OkButReserved(capacity, node, b.freeLists[node][|b.freeLists[node]| - 1])
  {
    assert b.BalancedAt(node, capacity);
    TakeFreed(b.Live(node), b.freeLists[node], b.nextPhysical[node], capacity);
    forall n | 0 <= n < b.Nodes() && n != node
      ensures TakenFreed(b, node).BalancedAt(n, capacity)
    {
      assert b.BalancedAt(n, capacity);
    }
  }

  lemma {:induction false} ReserveFresh(b: Books, capacity: nat, node: nat)
    requires b.Ok(capacity) && node < b.Nodes() && b.freeLists[node] == [] && b.nextPhysical[node] < capacity
    ensures TakenFresh(b, node).OkButReserved(capacity, node, b.nextPhysical[node])
  {
    assert b.BalancedAt(node, capacity);
    TakeFresh(b.Live(node), b.nextPhysical[node], capacity);
    forall n | 0 <= n < b.Nodes() && n != node
      ensures TakenFresh(b, node).BalancedAt(n, capacity)
    {
      assert b.BalancedAt(n, capacity);
    }
  }

  function Added(b: Books, p: KVPage): Books
    requires p.node < |b.nodePages|
  {
    b.(table := b.table[p.virt := p],
       nodePages := b.nodePages[p.node := b.nodePages[p.node] + {p.virt}],
       nextVirtual := b.nextVirtual + 1)
  }

  /** The physical id that the next page on the node gets: the most recently freed one, else the next fresh one. */
  function NextPhys(b: Books, node: nat): nat
    requires node < |b.freeLists| == |b.nextPhysical|
  {
    if b.freeLists[node] != [] then Last(b.freeLists[node]) else b.nextPhysical[node]
  }

  function Taken(b: Books, node: nat): Books
    requires node < |b.freeLists| == |b.nextPhysical|
  {
    if b.freeLists[node] != [] then TakenFreed(b, node) else TakenFresh(b, node)
  }

  /** A page that enters the table on a node with room for it. */
  function NewPage(b: Books, node: nat, req: int, isShared: bool, timestamp: int): KVPage
    requires node < |b.freeLists| == |b.nextPhysical|
  {
    var state := if isShared then Shared else Allocated;
    KVPage(b.nextVirtual, node, NextPhys(b, node), req, state, 0, timestamp, isShared, 1)
  }

  function Entered(b: Books, node: nat, req: int, isShared: bool, timestamp: int): Books
    requires b.Shaped() && node < b.Nodes()
  {
    Added(Taken(b, node), NewPage(b, node, req, isShared, timestamp))
  }

  lemma {:induction false} AddIn(b: Books, capacity: nat, p: KVPage)
    requires b.OkButReserved(capacity, p.node, p.phys) && p.virt == b.nextVirtual
    ensures Added(b, p).Ok(capacity) && p.virt !in b.table
  {
    hide NodeOk, Reserved, PhysOn;
    var b' := Added(b, p);
    IndexedAdd(b.table, b.nodePages, b.nextVirtual, p);
    AddedAt(b, capacity, p);
    OthersKept(b, b', capacity, p.node, p.virt);
    AllBalanced(b', capacity, p.node);
  }

  lemma {:induction false} AddedAt(b: Books, capacity: nat, p: KVPage)
    requires b.OkButReserved(capacity, p.node, p.phys) && p.virt == b.nextVirtual
    ensures Added(b, p).BalancedAt(p.node, capacity) && p.virt !in b.table
  {
    assert p.virt !in b.table;
    assert Added(b, p).Live(p.node) == b.Live(p.node)[p.virt := p.phys];
    Place(b.Live(p.node), b.freeLists[p.node], b.nextPhysical[p.node], capacity, p.virt, p.phys);
  }

  /** Entering a page on a node with room keeps the accounts. */
  lemma {:induction false} EnterIn(b: Books, capacity: nat, node: nat, req: int, isShared: bool, timestamp: int)
    requires b.Ok(capacity) && node < b.Nodes() && |b.nodePages[node]| != capacity
    ensures var after := Entered(b, node, req, isShared, timestamp);
            after.Ok(capacity) && after.Nodes() == b.Nodes()
  {
    hide NodeOk, PhysOn, Indexed, Reserved;
    FullIff(b, capacity, node);
    if b.freeLists[node] != [] {
      ReserveFreed(b, capacity, node);
    } else {
      ReserveFresh(b, capacity, node);
    }
    AddIn(Taken(b, node), capacity, NewPage(b, node, req, isShared, timestamp));
  }

  /** Empty nodes are in order. */
  lemma {:induction false} EmptyIn(capacity: nat, nodes: nat)
    ensures Books(map[], seq(nodes, _ => {}), seq(nodes, _ => 0), seq(nodes, _ => []), 0).Ok(capacity)
  {
  }

  /** Recording an access keeps the accounts. */
  lemma {:induction false} TouchIn(b: Books, capacity: nat, v: nat, timestamp: int)
    requires b.Ok(capacity)
    ensures b.(table := Touched(b.table, v, timestamp)).Ok(capacity)
  {
    hide NodeOk, Books.BalancedAt, PhysOn;
    if v in b.table {
      UpdateIn(b, capacity, b.table[v].(accessCount := b.table[v].accessCount + 1, lastAccess := timestamp));
    } else {
      assert b.(table := b.table) == b;
    }
  }

  lemma {:induction false} AllBalanced(b: Books, capacity: nat, node: nat)
    requires b.Shaped() && Indexed(b.table, b.nodePages, b.nextVirtual) && node < b.Nodes()
    requires b.BalancedAt(node, capacity)
    requires forall n :: 0 <= n < b.Nodes() && n != node ==> b.BalancedAt(n, capacity)
    ensures b.Ok(capacity)
  {
  }

  /** Changing one virtual page keeps the accounts of the nodes that do not hold it. */
  lemma {:induction false} OthersKept(b: Books, b': Books, capacity: nat, node: nat, v: nat)
    requires b.Shaped() && b'.Shaped() && b.Nodes() == b'.Nodes()
    requires forall n :: 0 <= n < b.Nodes() && n != node ==>
               && b.BalancedAt(n, capacity) && v !in b.nodePages[n]
               && b'.freeLists[n] == b.freeLists[n] && b'.nextPhysical[n] == b.nextPhysical[n]
               && b'.nodePages[n] == b.nodePages[n]
    requires forall w :: w != v ==> (w in b.table <==> w in b'.table) && (w in b.table ==> b'.table[w] == b.table[w])
    ensures forall n :: 0 <= n < b.Nodes() && n != node ==> b'.BalancedAt(n, capacity)
  {
    forall n | 0 <= n < b.Nodes() && n != node
      ensures b'.BalancedAt(n, capacity)
    {
      assert b.BalancedAt(n, capacity);
      assert b'.Live(n) == b.Live(n);
    }
  }

  function Removed(b: Books, v: nat): Books
    requires v in b.table && b.table[v].node < |b.nodePages| == |b.freeLists|
  {
    var page := b.table[v];
    b.(table := b.table - {v},
       nodePages := b.nodePages[page.node := b.nodePages[page.node] - {v}],
       freeLists := b.freeLists[page.node := b.freeLists[page.node] + [page.phys]])
  }

  /** A shared page that loses one of its references. */
  function Dereferenced(b: Books, v: nat): Books
    requires v in b.table
  {
    b.(table := b.table[v := b.table[v].(refCount := b.table[v].refCount - 1)])
  }

  lemma {:induction false} RemovedAt(b: Books, capacity: nat, v: nat)
    requires b.Ok(capacity) && v in b.table
    ensures Removed(b, v).Shaped() && b.table[v].node < b.Nodes()
    ensures Removed(b, v).BalancedAt(b.table[v].node, capacity)
  {
    var node := b.table[v].node;
    assert b.BalancedAt(node, capacity);
    assert Removed(b, v).Live(node) == b.Live(node) - {v};
    Release(b.Live(node), b.freeLists[node], b.nextPhysical[node], capacity, v);
  }

  lemma {:induction false} RemoveIn(b: Books, capacity: nat, v: nat)
    requires b.Ok(capacity) && v in b.table
    ensures Removed(b, v).Ok(capacity)
  {
    hide NodeOk, PhysOn;
    var b', node := Removed(b, v), b.table[v].node;
    IndexedRemove(b.table, b.nodePages, b.nextVirtual, v);
    RemovedAt(b, capacity, v);
    OthersKept(b, b', capacity, node, v);
    AllBalanced(b', capacity, node);
  }

  /** Moving page `v` to the reserved place of `p`. */
  function MovedTo(b: Books, v: nat, p: KVPage): Books
    requires v in b.table && b.table[v].node < |b.nodePages| == |b.freeLists| && p.node < |b.nodePages|
  {
    var page := b.table[v];
    b.(table := b.table[v := p],
       nodePages := Moved(b.nodePages, v, page.node, p.node),
       freeLists := b.freeLists[page.node := b.freeLists[page.node] + [page.phys]])
  }

  lemma {:induction false} MoveIn(b: Books, capacity: nat, v: nat, p: KVPage)
    requires b.OkButReserved(capacity, p.node, p.phys)
    requires v in b.table && b.table[v].node != p.node && p.virt == v
    ensures MovedTo(b, v, p).Ok(capacity)
  {
    var b' := MovedTo(b, v, p);
    IndexedMove(b.table, b.nodePages, b.nextVirtual, v, p);
    MovedFrom(b, capacity, v, p);
    MovedInto(b, capacity, v, p);
    forall n | 0 <= n < b.Nodes() && n != p.node
      ensures b'.BalancedAt(n, capacity)
    {
      if n != b.table[v].node {
        MovedElsewhere(b, capacity, v, p, n);
      }
    }
    AllBalanced(b', capacity, p.node);
  }

  lemma {:induction false} MovedElsewhere(b: Books, capacity: nat, v: nat, p: KVPage, n: nat)
    requires b.Shaped() && Indexed(b.table, b.nodePages, b.nextVirtual) && n < b.Nodes() && p.node < b.Nodes()
    requires v in b.table && n != b.table[v].node && n != p.node && b.BalancedAt(n, capacity)
    ensures MovedTo(b, v, p).BalancedAt(n, capacity)
  {
    assert v !in b.nodePages[n];
    assert MovedTo(b, v, p).Live(n) == b.Live(n);
  }

  lemma {:induction false} MovedFrom(b: Books, capacity: nat, v: nat, p: KVPage)
    requires b.OkButReserved(capacity, p.node, p.phys)
    requires v in b.table && b.table[v].node != p.node && p.virt == v
    ensures MovedTo(b, v, p).BalancedAt(b.table[v].node, capacity)
  {
    var src := b.table[v].node;
    assert b.BalancedAt(src, capacity);
    assert MovedTo(b, v, p).Live(src) == b.Live(src) - {v};
    Release(b.Live(src), b.freeLists[src], b.nextPhysical[src], capacity, v);
  }

  lemma {:induction false} MovedInto(b: Books, capacity: nat, v: nat, p: KVPage)
    requires b.OkButReserved(capacity, p.node, p.phys)
    requires v in b.table && b.table[v].node != p.node && p.virt == v
    ensures MovedTo(b, v, p).BalancedAt(p.node, capacity)
  {
    assert MovedTo(b, v, p).Live(p.node) == b.Live(p.node)[v := p.phys];
    Place(b.Live(p.node), b.freeLists[p.node], b.nextPhysical[p.node], capacity, v, p.phys);
  }

  /** The table once an access to page `v` has been recorded; an unknown page is ignored. */
  function Touched(table: Table, v: nat, timestamp: int): Table {
    if v !in table then table
    else table[v := table[v].(accessCount := table[v].accessCount + 1, lastAccess := timestamp)]
  }

  // ------------------------------------------------------------ the operations, field by field

  /** A new page takes the last freed id, or else the next fresh one, and nothing else moves. */
  lemma {:induction false} EnteredFields(b: Books, node: nat, req: int, isShared: bool, timestamp: int)
    requires b.Shaped() && node < b.Nodes()
    ensures var free := b.freeLists[node];
            var id := if free != [] then free[|free| - 1] else b.nextPhysical[node];
            var p := KVPage(b.nextVirtual, node, id, req, if isShared then Shared else Allocated, 0, timestamp,
                            isShared, 1);
            && NewPage(b, node, req, isShared, timestamp) == p
            && Entered(b, node, req, isShared, timestamp) ==
               Books(b.table[b.nextVirtual := p], b.nodePages[node := b.nodePages[node] + {b.nextVirtual}],
                     if free == [] then b.nextPhysical[node := id + 1] else b.nextPhysical,
                     if free == [] then b.freeLists else b.freeLists[node := free[..|free| - 1]],
                     b.nextVirtual + 1)
  {
  }

  /** Allocating a page and freeing it leaves everything but the counter, and at most one more free id. */
  lemma {:induction false} EnterThenRemove(b: Books, capacity: nat, node: nat, req: int, isShared: bool,
                                           timestamp: int)
    requires b.Ok(capacity) && node < b.Nodes() && |b.nodePages[node]| != capacity
    ensures var v, free := b.nextVirtual, b.freeLists[node];
            var e := Entered(b, node, req, isShared, timestamp);
            && v in e.table && e.table[v].node == node < |e.nodePages| == |e.freeLists|
            && Removed(e, v) ==
               if free != [] then b.(nextVirtual := v + 1)
               else b.(nextVirtual := v + 1, nextPhysical := b.nextPhysical[node := b.nextPhysical[node] + 1],
                       freeLists := b.freeLists[node := [b.nextPhysical[node]]])
  {
    hide Books.BalancedAt, NodeOk, Entered, NewPage;
    EnterIn(b, capacity, node, req, isShared, timestamp);
    EnteredFields(b, node, req, isShared, timestamp);
    var v, free, e := b.nextVirtual, b.freeLists[node], Entered(b, node, req, isShared, timestamp);
    assert v !in b.table && v !in b.nodePages[node];
    assert e.table - {v} == b.table;
    assert e.nodePages[node := e.nodePages[node] - {v}] == b.nodePages by {
      assert b.nodePages[node] + {v} - {v} == b.nodePages[node];
    }
    if free != [] {
      assert free[..|free| - 1] + [free[|free| - 1]] == free;
      assert e.freeLists[node := e.freeLists[node] + [free[|free| - 1]]] == b.freeLists;
    } else {
      assert e.freeLists[node] + [b.nextPhysical[node]] == [b.nextPhysical[node]];
    }
  }

  /** Freeing gives the page's id back as the next one to be taken. */
  lemma {:induction false} RemovedFields(b: Books, capacity: nat, v: nat)
    requires b.Ok(capacity) && v in b.table
    ensures var p, r := b.table[v], Removed(b, v);
            && r.table == b.table - {v} && r.nextPhysical == b.nextPhysical && r.nextVirtual == b.nextVirtual
            && p.node < b.Nodes() == |r.nodePages| == |r.freeLists| && NextPhys(r, p.node) == p.phys
            && r.freeLists[p.node][..|b.freeLists[p.node]|] == b.freeLists[p.node]
            && (forall n :: 0 <= n < b.Nodes() ==> r.nodePages[n] == b.nodePages[n] - {v})
            && forall n :: 0 <= n < b.Nodes() && n != p.node ==> r.freeLists[n] == b.freeLists[n]
  {
    hide Books.BalancedAt, NodeOk;
  }

  /** A shared page that only loses a reference keeps everything else. */
  lemma {:induction false} DereferencedFields(b: Books, v: nat)
    requires v in b.table
    ensures var d, p := Dereferenced(b, v), b.table[v];
            && d == b.(table := d.table) && d.table.Keys == b.table.Keys
            && (forall w :: w in b.table && w != v ==> d.table[w] == b.table[w])
            && d.table[v].refCount + 1 == p.refCount && d.table[v].(refCount := p.refCount) == p
  {
  }

  /** A moved page takes its new id like a new page, and gives its old one back. */
  lemma {:induction false} MovedFields(b: Books, capacity: nat, v: nat, dst: nat)
    requires b.Ok(capacity) && v in b.table && dst < b.Nodes() && b.table[v].node != dst
    ensures var p, id := b.table[v], NextPhys(b, dst);
            var m := MovedTo(Taken(b, dst), v, p.(node := dst, phys := id, state := Allocated));
            && m.table == b.table[v := p.(node := dst, phys := id, state := Allocated)]
            && m.nextVirtual == b.nextVirtual && |m.nodePages| == |m.freeLists| == b.Nodes()
            && m.nextPhysical == (if b.freeLists[dst] == [] then b.nextPhysical[dst := id + 1] else b.nextPhysical)
            && (forall n :: 0 <= n < b.Nodes() ==>
                  m.nodePages[n] == if n == dst then b.nodePages[n] + {v} else b.nodePages[n] - {v})
            && forall n :: 0 <= n < b.Nodes() ==>
                 m.freeLists[n] ==
                 if n == p.node then b.freeLists[n] + [p.phys]
                 else if n == dst && b.freeLists[n] != [] then b.freeLists[n][..|b.freeLists[n]| - 1]
                 else b.freeLists[n]
  {
    hide Books.BalancedAt, NodeOk;
  }

  /** An access changes the count and the time of its page and nothing else. */
  lemma {:induction false} TouchedFields(table: Table, v: nat, timestamp: int)
    ensures Touched(table, v, timestamp).Keys == table.Keys
    ensures forall w :: w in table ==>
              var p, q := table[w], Touched(table, v, timestamp)[w];
              && q == p.(accessCount := q.accessCount, lastAccess := q.lastAccess)
              && q.accessCount == p.accessCount + (if w == v then 1 else 0)
              && q.lastAccess == if w == v then timestamp else p.lastAccess
  {
  }

  lemma {:induction false} IndexedUpdate(table: Table, nodePages: seq<set<nat>>, nextVirtual: nat, p: KVPage)
    requires Indexed(table, nodePages, nextVirtual) && p.virt in table && p.node == table[p.virt].node
    ensures Indexed(table[p.virt := p], nodePages, nextVirtual)
  {
  }

  /** Updating a page where it is keeps the accounts. */
  lemma {:induction false} UpdateIn(b: Books, capacity: nat, p: KVPage)
    requires b.Ok(capacity) && p.virt in b.table
    requires p.node == b.table[p.virt].node && p.phys == b.table[p.virt].phys
    ensures b.(table := b.table[p.virt := p]).Ok(capacity)
  {
    hide NodeOk, Indexed;
    var b' := b.(table := b.table[p.virt := p]);
    IndexedUpdate(b.table, b.nodePages, b.nextVirtual, p);
    forall n | 0 <= n < b.Nodes()
      ensures b'.BalancedAt(n, capacity)
    {
      assert b.BalancedAt(n, capacity);
      assert b'.Live(n) == b.Live(n);
    }
  }

  class GlobalKVPageTable {
    const numNodes: nat
    const pagesPerNode: nat

    var table: Table
    var nodePages: seq<set<nat>>
    var nextPhysical: seq<nat>
    var freeLists: seq<seq<nat>>
    var nextVirtual: nat
    var totalAllocations: nat
    var totalFrees: nat
    var totalLookups: nat
    var sharedPageHits: nat

    function Contents(): Books
      reads this`table, this`nodePages, this`nextPhysical, this`freeLists, this`nextVirtual
    {
      Books(table, nodePages, nextPhysical, freeLists, nextVirtual)
    }

    ghost predicate Valid()
      reads this
    {
      && Contents().Ok(pagesPerNode) && |nodePages| == numNodes
      && totalAllocations == totalFrees + |table|
    }

    constructor (numNodes: nat, pagesPerNode: nat)
      ensures Valid() && table == map[] && nextVirtual == 0
      ensures this.numNodes == numNodes && this.pagesPerNode == pagesPerNode
    {
      this.numNodes, this.pagesPerNode := numNodes, pagesPerNode;
      table := map[];
      nodePages := seq(numNodes, _ => {});
      nextPhysical := seq(numNodes, _ => 0);
      freeLists := seq(numNodes, _ => []);
      nextVirtual, totalAllocations, totalFrees, totalLookups, sharedPageHits := 0, 0, 0, 0, 0;
    }

    /** Takes the most recently freed id, else the next fresh one, else fails. */
    method AllocPhysical(node: nat) returns (phys: Option<nat>)
      requires node < |freeLists| == |nextPhysical|
      modifies this`freeLists, this`nextPhysical
      ensures if old(freeLists[node]) != [] then
                var free := old(freeLists[node]);
                && phys == Some(free[|free| - 1])
                && freeLists == old(freeLists)[node := free[..|free| - 1]]
                && nextPhysical == old(nextPhysical)
              else if old(nextPhysical[node]) < pagesPerNode then
                && phys == Some(old(nextPhysical[node]))
                && nextPhysical == old(nextPhysical)[node := old(nextPhysical[node]) + 1]
                && freeLists == old(freeLists)
              else phys == None && freeLists == old(freeLists) && nextPhysical == old(nextPhysical)
    {
      var free := freeLists[node];
      if free != [] {
        phys := Some(free[|free| - 1]);
        freeLists := freeLists[node := free[..|free| - 1]];
      } else if nextPhysical[node] < pagesPerNode {
        phys := Some(nextPhysical[node]);
        nextPhysical := nextPhysical[node := nextPhysical[node] + 1];
      } else {
        phys := None;
      }
    }

    /** In a valid table, allocation takes an id that is in no use, or the node is full. */
    method ReservePhysical(node: nat) returns (phys: Option<nat>)
      requires Valid() && node < numNodes
      modifies this`freeLists, this`nextPhysical
      ensures phys.None? <==> |nodePages[node]| == pagesPerNode
      ensures phys.None? ==> freeLists == old(freeLists) && nextPhysical == old(nextPhysical)
      ensures phys.Some? ==>
                && Contents().OkButReserved(pagesPerNode, node, phys.value)
                && phys.value == NextPhys(old(Contents()), node) && Contents() == Taken(old(Contents()), node)
    {
      ghost var before := Contents();
      FullIff(before, pagesPerNode, node);
      phys := AllocPhysical(node);
      if before.freeLists[node] != [] {
        ReserveFreed(before, pagesPerNode, node);
        assert Contents() == TakenFreed(before, node);
      } else if phys.Some? {
        ReserveFresh(before, pagesPerNode, node);
        assert Contents() == TakenFresh(before, node);
      }
    }

    method FreePhysical(node: nat, phys: nat)
      requires node < |freeLists|
      modifies this`freeLists
      ensures freeLists == old(freeLists)[node := old(freeLists[node]) + [phys]]
    {
      freeLists := freeLists[node := freeLists[node] + [phys]];
    }

    /** Allocation fails exactly when the node already holds its capacity of live pages. */
    method AllocatePage(node: nat, req: int, isShared: bool, timestamp: int) returns (page: Option<KVPage>)
      requires Valid() && node < numNodes
      modifies this
      ensures Valid()
      ensures page.None? <==> |old(nodePages[node])| == pagesPerNode
      ensures page.None? ==> Contents() == old(Contents())
      ensures page.Some? ==>
                var p := page.value;
                && p == NewPage(old(Contents()), node, req, isShared, timestamp) && p.virt !in old(table)
                && Contents() == Entered(old(Contents()), node, req, isShared, timestamp)
    {
      var phys := ReservePhysical(node);
      if phys == None {
        return None;
      }
      var state := if isShared then Shared else Allocated;
      var p := KVPage(nextVirtual, node, phys.value, req, state, 0, timestamp, isShared, 1);
      Insert(p);
      return Some(p);
    }

    /** Enters a page at its reserved place. */
    method Insert(p: KVPage)
      requires Contents().OkButReserved(pagesPerNode, p.node, p.phys) && |nodePages| == numNodes
      requires p.virt == nextVirtual && totalAllocations == totalFrees + |table|
      modifies this`table, this`nodePages, this`nextVirtual, this`totalAllocations
      ensures Valid() && p.virt !in old(table)
      ensures Contents() == Added(old(Contents()), p)
    {
      hide NodeOk, Reserved, Books.BalancedAt, Books.Ok, PhysOn, Indexed;
      AddIn(Contents(), pagesPerNode, p);
      nextVirtual := nextVirtual + 1;
      table := table[p.virt := p];
      nodePages := nodePages[p.node := nodePages[p.node] + {p.virt}];
      totalAllocations := totalAllocations + 1;
    }

    /** Frees a page; a shared page only loses a reference until the last one goes. */
    method FreePage(virt: nat) returns (ok: bool)
      requires Valid()
      modifies this
      ensures Valid()
      ensures ok <==> virt in old(table)
      ensures Contents() ==
                if !ok then old(Contents())
                else if old(table[virt]).isShared && old(table[virt]).refCount > 1
                  then Dereferenced(old(Contents()), virt)
                else Removed(old(Contents()), virt)
    {
      if virt !in table {
        return false;
      }
      var page := table[virt];
      if page.isShared {
        page := page.(refCount := page.refCount - 1);
        if page.refCount > 0 {
          Overwrite(page);
          return true;
        }
      }
      Discard(virt);
      return true;
    }

    /** Frees the page's physical id and forgets the page. */
    method Discard(virt: nat)
      requires Valid() && virt in table
      modifies this
      ensures Valid()
      ensures Contents() == Removed(old(Contents()), virt)
    {
      var page := table[virt];
      RemoveIn(Contents(), pagesPerNode, virt);
      FreePhysical(page.node, page.phys);
      nodePages := nodePages[page.node := nodePages[page.node] - {virt}];
      table := table - {virt};
      totalFrees := totalFrees + 1;
      assert old(table) == table[virt := page];
    }

    method Lookup(virt: nat) returns (location: Option<(nat, nat)>)
      modifies this`totalLookups
      ensures location == if virt in table then Some((table[virt].node, table[virt].phys)) else None
      ensures totalLookups == old(totalLookups) + 1
    {
      totalLookups := totalLookups + 1;
      location := if virt in table then Some((table[virt].node, table[virt].phys)) else None;
    }

    method RecordAccess(virt: nat, timestamp: int)
      requires Valid()
      modifies this`table, this`sharedPageHits
      ensures Valid() && table == Touched(old(table), virt, timestamp)
      ensures sharedPageHits ==
                old(sharedPageHits) + if virt in old(table) && old(table[virt]).isShared then 1 else 0
    {
      hide NodeOk, Books.BalancedAt, PhysOn;
      if virt in table {
        var page := table[virt];
        if page.isShared {
          sharedPageHits := sharedPageHits + 1;
        }
        Overwrite(page.(accessCount := page.accessCount + 1, lastAccess := timestamp));
      }
    }

    /** Replaces the record of a page that stays where it is. */
    method Overwrite(p: KVPage)
      requires Valid() && p.virt in table && p.node == table[p.virt].node && p.phys == table[p.virt].phys
      modifies this`table
      ensures Valid() && table == old(table)[p.virt := p]
    {
      UpdateIn(Contents(), pagesPerNode, p);
      table := table[p.virt := p];
    }

    /** Moves a page exactly when it exists, lives elsewhere, and the destination has room. */
    method MigratePage(virt: nat, dst: nat) returns (ok: bool)
      requires Valid() && dst < numNodes
      modifies this
      ensures Valid()
      ensures ok <==> virt in old(table) && old(table[virt]).node != dst && |old(nodePages[dst])| < pagesPerNode
      ensures !ok ==> Contents() == old(Contents())
      ensures ok ==>
                var p := old(table[virt]);
                && virt in table
                && table == old(table)[virt := p.(node := dst, phys := table[virt].phys, state := Allocated)]
                && nodePages == Moved(old(nodePages), virt, p.node, dst)
                && nextVirtual == old(nextVirtual)
      ensures ok ==>
                var b := old(Contents());
                && b.Shaped() && virt in b.table && b.table[virt].node < b.Nodes()
                && var moved := b.table[virt].(node := dst, phys := NextPhys(b, dst), state := Allocated);
                   Contents() == MovedTo(Taken(b, dst), virt, moved)
    {
      hide Books.BalancedAt, NodeOk;
      FullIff(Contents(), pagesPerNode, dst);
      if virt !in table || table[virt].node == dst {
        return false;
      }
      var page := table[virt];
      var phys := ReservePhysical(dst);
      if phys == None {
        return false;
      }
      Relocate(virt, page.(node := dst, phys := phys.value, state := Allocated));
      return true;
    }

    /** Frees the page's old place and enters it at its reserved new one. */
    method Relocate(virt: nat, moved: KVPage)
      requires Contents().OkButReserved(pagesPerNode, moved.node, moved.phys) && |nodePages| == numNodes
      requires virt in table && table[virt].node != moved.node && moved.virt == virt
      requires totalAllocations == totalFrees + |table|
      modifies this`table, this`nodePages, this`freeLists
      ensures Valid()
      ensures Contents() == MovedTo(old(Contents()), virt, moved)
    {
      hide NodeOk, Reserved, Books.BalancedAt, PhysOn;
      var page := table[virt];
      MoveIn(Contents(), pagesPerNode, virt, moved);
      FreePhysical(page.node, page.phys);
      nodePages := nodePages[page.node := nodePages[page.node] - {virt}];
      table := table[virt := moved];
      nodePages := nodePages[moved.node := nodePages[moved.node] + {virt}];
    }
  }
}
