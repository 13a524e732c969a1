/** The row indirection table of the mappers (ramulator2/src/addr_mapper/impl/rit.cpp). */
module Rit {
  import opened Wrappers

  datatype Entry = Entry(dst: int, lock: bool)

  /** One bank's table, from rows to the rows they are swapped with. */
  type Table = map<int, Entry>

  /** Partners point at each other, differ, and share a lock. */
  ghost predicate Involution(t: Table) {
    forall r :: r in t ==>
      && 0 <= r && t[r].dst != r && t[r].dst in t
      && t[t[r].dst].dst == r && t[t[r].dst].lock == t[r].lock
  }

  /** No row and no partner is negative; so -1 can stand for no partner. */
  ghost predicate Rooted(t: Table) {
    forall r :: r in t ==> 0 <= r && 0 <= t[r].dst
  }

  /** A negative capacity is a very large number when compared with a size. */
  predicate Full(t: Table, capacity: int) {
    0 <= capacity <= |t|
  }

  predicate Overflows(t: Table, capacity: int) {
    0 <= capacity < |t|
  }

  /** Where a row is found. */
  function Redirect(t: Table, row: int): int {
    if row in t then t[row].dst else row
  }

  function Inserted(t: Table, src: int, dst: int): Table {
    t[src := Entry(dst, true)][dst := Entry(src, true)]
  }

  function Removed(t: Table, src: int, dst: int): Table {
    t - {src} - {dst}
  }

  function Unlocked(t: Table): Table {
    map r | r in t :: t[r].(lock := false)
  }

  /** The two rows are then found at each other's place, locked, and all others are as they were. */
  lemma {:induction false} InsertedRows(t: Table, src: int, dst: int, r: int)
    ensures var t' := Inserted(t, src, dst);
            && (r in t' <==> r in t || r == src || r == dst)
            && (r == src || r == dst ==> t'[r].lock && t'[r].dst == if r == dst then src else dst)
            && (r in t && r != src && r != dst ==> t'[r] == t[r])
            && Redirect(t', r) == if r == dst then src else if r == src then dst else Redirect(t, r)
  {
  }

  /** Removed rows are found at home again, unlocking takes every lock and nothing else. */
  lemma {:induction false} RemovedRows(t: Table, src: int, dst: int, r: int)
    ensures r in Removed(t, src, dst) <==> r in t && r != src && r != dst
    ensures Redirect(Removed(t, src, dst), r) == if r == src || r == dst then r else Redirect(t, r)
    ensures r in t && r != src && r != dst ==> Removed(t, src, dst)[r] == t[r]
    ensures r in Unlocked(t) <==> r in t
    ensures r in t ==> Unlocked(t)[r] == Entry(t[r].dst, false)
  {
  }

  /** No two rows are found at the same place. */
  ghost predicate OneToOne(t: Table) {
    forall r, s :: Redirect(t, r) == Redirect(t, s) ==> r == s
  }

  /** No two of the first `n` rows are. */
  ghost predicate OneToOneBelow(t: Table, n: int) {
    forall r, s :: 0 <= r < n && 0 <= s < n && Redirect(t, r) == Redirect(t, s) ==> r == s
  }

  /** Redirecting twice leads back; so redirection is a permutation of the rows. */
  lemma {:induction false} RedirectTwice(t: Table, row: int)
    requires Involution(t)
    ensures Redirect(t, Redirect(t, row)) == row
  {
  }

  lemma {:induction false} InvolutionOneToOne(t: Table)
    requires Involution(t)
    ensures OneToOne(t) && Rooted(t)
  {
    forall r, s | Redirect(t, r) == Redirect(t, s)
      ensures r == s
    {
      RedirectTwice(t, r);
      RedirectTwice(t, s);
    }
  }

  /** The table's operations keep rows and partners from being negative. */
  lemma {:induction false} OperationsRooted(t: Table, src: int, dst: int)
    requires Rooted(t)
    ensures 0 <= src && 0 <= dst ==> Rooted(Inserted(t, src, dst))
    ensures Rooted(Removed(t, src, dst)) && Rooted(Unlocked(t))
  {
  }

  /**
   * An insertion keeps the table an involution exactly when the rows differ and are both fresh, or were
   * already partners.
   */
  lemma {:induction false} InsertKeepsIff(t: Table, src: int, dst: int)
    requires Involution(t) && 0 <= src && 0 <= dst
    ensures Involution(Inserted(t, src, dst)) <==>
            src != dst && ((src !in t && dst !in t) || (src in t && t[src].dst == dst))
  {
    var t' := Inserted(t, src, dst);
    if src != dst {
      if src in t && t[src].dst != dst {
        var was := t[src].dst;
        assert was in t' && t'[was].dst == src && t'[src].dst != was;
      } else if src !in t && dst in t {
        var was := t[dst].dst;
        assert was in t' && t'[was].dst == dst && t'[dst].dst != was;
      }
    } else {
      assert src in t' && t'[src].dst == src;
    }
  }

  /** A removal keeps the table an involution exactly when it does not part a row from a partner outside the pair. */
  lemma {:induction false} RemoveKeepsIff(t: Table, src: int, dst: int)
    requires Involution(t)
    ensures Involution(Removed(t, src, dst)) <==>
            (src in t ==> src != dst && t[src].dst == dst) && (dst in t ==> src != dst && t[dst].dst == src)
  {
    var t' := Removed(t, src, dst);
    if src in t && (src == dst || t[src].dst != dst) {
      assert t[src].dst in t' && t'[t[src].dst].dst !in t';
    } else if dst in t && t[dst].dst != src {
      assert t[dst].dst in t' && t'[t[dst].dst].dst !in t';
    }
  }

  lemma {:induction false} UnlockKeeps(t: Table)
    requires Involution(t)
    ensures Involution(Unlocked(t)) && |Unlocked(t)| == |t| && forall r :: Redirect(Unlocked(t), r) == Redirect(t, r)
  {
    assert Unlocked(t).Keys == t.Keys;
    assert |Unlocked(t)| == |Unlocked(t).Keys| && |t| == |t.Keys|;
  }

  /** Asking for the lock of a row that is absent enters it, with the row 0 as its partner. */
  function Touched(t: Table, row: int): Table {
    if row in t then t else t[row := Entry(0, false)]
  }

  /** So the lock may be asked for exactly on rows that are present. */
  lemma {:induction false} TouchKeepsIff(t: Table, row: int)
    requires Involution(t)
    ensures Involution(Touched(t, row)) <==> row in t
  {
    if row !in t {
      var t' := Touched(t, row);
      assert row in t' && t'[row].dst == 0;
      if 0 in t {
        assert t[0].dst in t;
      }
    }
  }

  lemma {:induction false} RemovedSize(t: Table, src: int, dst: int)
    requires src in t && dst in t && src != dst
    ensures |Removed(t, src, dst)| == |t| - 2
  {
    assert |t| == |t.Keys| && |Removed(t, src, dst)| == |Removed(t, src, dst).Keys|;
    assert Removed(t, src, dst).Keys == t.Keys - {src, dst};
  }

  lemma {:induction false} InsertedSize(t: Table, src: int, dst: int)
    ensures |t| <= |Inserted(t, src, dst)| <= |t| + 2
    ensures src !in t && dst !in t && src != dst ==> |Inserted(t, src, dst)| == |t| + 2
  {
    var t' := Inserted(t, src, dst);
    assert |t| == |t.Keys| && |t'| == |t'.Keys|;
    assert t'.Keys == t.Keys + {src} + {dst};
  }

  lemma {:induction false} PairRemoved(t: Table, r: int)
    requires Involution(t) && r in t
    ensures Involution(Removed(t, r, t[r].dst)) && |Removed(t, r, t[r].dst)| == |t| - 2
  {
    RemoveKeepsIff(t, r, t[r].dst);
    RemovedSize(t, r, t[r].dst);
  }

  /** Entries come in pairs. */
  lemma {:induction false} EvenSize(t: Table)
    requires Involution(t)
    ensures |t| % 2 == 0
    decreases |t|
  {
    hide Involution, Removed;
    if t != map[] {
      assert t.Keys != {};
      var r := Member(t.Keys);
      PairRemoved(t, r);
      EvenSize(Removed(t, r, t[r].dst));
    }
  }

  lemma {:induction false} EmptyInvolution()
    ensures Involution(map[])
  {
  }

  /** A table of `n` pairs on the rows below 2n. */
  function Pairs(n: nat): Table {
    if n == 0 then map[] else Inserted(Pairs(n - 1), 2 * n - 2, 2 * n - 1)
  }

  lemma {:induction false} InsertedKeys(t: Table, src: int, dst: int)
    ensures forall r :: r in Inserted(t, src, dst) <==> r in t || r == src || r == dst
  {
  }

  lemma {:induction false} PairsFacts(n: nat)
    ensures Involution(Pairs(n)) && |Pairs(n)| == 2 * n && forall r :: r in Pairs(n) <==> 0 <= r < 2 * n
  {
    hide Involution, Inserted;
    if n == 0 {
      EmptyInvolution();
    } else {
      InsertedKeys(Pairs(n - 1), 2 * n - 2, 2 * n - 1);
      PairsFacts(n - 1);
      InsertKeepsIff(Pairs(n - 1), 2 * n - 2, 2 * n - 1);
      InsertedSize(Pairs(n - 1), 2 * n - 2, 2 * n - 1);
    }
  }

  /** Whether there being room for one entry ever lets a fresh pair overflow. */
  ghost predicate CheckSuffices(capacity: nat) {
    forall t: Table, src, dst :: Involution(t) && |t| < capacity && src !in t && dst !in t && src != dst ==>
      |Inserted(t, src, dst)| <= capacity
  }

  /** Checking that the table is not full is enough before inserting a pair exactly when the capacity is even. */
  lemma {:induction false} CheckSufficesIff(capacity: nat)
    ensures CheckSuffices(capacity) <==> capacity % 2 == 0
  {
    if capacity % 2 == 0 {
      forall t: Table, src, dst | Involution(t) && |t| < capacity && src !in t && dst !in t && src != dst
        ensures |Inserted(t, src, dst)| <= capacity
      {
        EvenSize(t);
        InsertedSize(t, src, dst);
      }
    } else {
      var n := capacity / 2;
      PairsFacts(n);
      InsertedSize(Pairs(n), capacity, capacity + 1);
      assert |Inserted(Pairs(n), capacity, capacity + 1)| > capacity;
    }
  }

  // ------------------------------------------------------------ the table as the mapper holds it

  class RowIndirection {
    var capacity: int
    var banks: seq<Table>

    /** Before `init_rit` the capacity is -1 and there are no banks. */
    constructor ()
      ensures capacity == -1 && banks == []
    {
      capacity, banks := -1, [];
    }

    /** Every bank's table is an involution within the capacity. */
    ghost predicate Valid()
      reads this
    {
      0 <= capacity && capacity % 2 == 0
      && forall b :: 0 <= b < |banks| ==> Involution(banks[b]) && |banks[b]| <= capacity
    }

    method InitRit(numBanks: nat, entries: int)
      modifies this
      ensures capacity == entries && banks == old(banks) + seq(numBanks, _ => map[])
      ensures old(banks) == [] && 0 <= entries && entries % 2 == 0 ==> Valid()
    {
      capacity := entries;
      for i := 0 to numBanks
        invariant capacity == entries && banks == old(banks) + seq(i, _ => map[])
      {
        banks := banks + [map[]];
      }
    }

    /** The partner of a row, or -1. */
    function CheckRit(bank: nat, row: int): (dst: int)
      requires bank < |banks|
      reads this
      ensures Rooted(banks[bank]) ==> (dst == -1 <==> row !in banks[bank])
    {
      if row in banks[bank] then banks[bank][row].dst else -1
    }

    predicate IsFull(bank: nat)
      requires bank < |banks|
      reads this
    {
      Full(banks[bank], capacity)
    }

    method IsLocked(bank: nat, row: int) returns (lock: bool)
      requires bank < |banks|
      modifies this`banks
      ensures banks == old(banks)[bank := Touched(old(banks)[bank], row)]
      ensures row in banks[bank] && (row !in old(banks)[bank] ==> banks[bank][row] == Entry(0, false))
      ensures lock <==> row in old(banks)[bank] && old(banks)[bank][row].lock
    {
      if row !in banks[bank] {
        banks := banks[bank := banks[bank][row := Entry(0, false)]];
      }
      lock := banks[bank][row].lock;
    }

    /** Enters the pair; the program ends (`ok` is false) if the table then exceeds its capacity. */
    method Insert(bank: nat, src: int, dst: int) returns (ok: bool)
      requires bank < |banks|
      modifies this`banks
      ensures banks == old(banks)[bank := Inserted(old(banks)[bank], src, dst)]
      ensures ok <==> !Overflows(banks[bank], capacity)
      ensures ok <==> capacity < 0 || |banks[bank]| <= capacity
    {
      banks := banks[bank := banks[bank][src := Entry(dst, true)]];
      banks := banks[bank := banks[bank][dst := Entry(src, true)]];
      ok := !Overflows(banks[bank], capacity);
    }

    method Remove(bank: nat, src: int, dst: int)
      requires bank < |banks|
      modifies this`banks
      ensures banks == old(banks)[bank := Removed(old(banks)[bank], src, dst)]
    {
      banks := banks[bank := banks[bank] - {src}];
      banks := banks[bank := banks[bank] - {dst}];
    }

    method Unlock()
      modifies this`banks
      ensures |banks| == |old(banks)| && forall b :: 0 <= b < |banks| ==> banks[b] == Unlocked(old(banks)[b])
      ensures old(Valid()) ==> Valid()
    {
      for b := 0 to |banks|
        invariant |banks| == |old(banks)|
        invariant forall c :: 0 <= c < |banks| ==> banks[c] == if c < b then Unlocked(old(banks)[c]) else old(banks)[c]
      {
        banks := banks[b := Unlocked(banks[b])];
      }
      if old(Valid()) {
        forall b | 0 <= b < |banks|
          ensures Involution(banks[b]) && |banks[b]| <= capacity
        {
          UnlockKeeps(old(banks)[b]);
        }
      }
    }

    /** Some unlocked pair of which neither row is excluded, if there is one; else the program ends. */
    method GetUnswapPair(bank: nat, excluded: set<int>) returns (pair: Option<(int, int)>)
      requires bank < |banks|
      ensures pair.Some? ==>
                Unswappable(banks[bank], excluded, pair.value.0) && pair.value.1 == banks[bank][pair.value.0].dst
      ensures pair.None? ==> forall r :: !Unswappable(banks[bank], excluded, r)
    {
      var t := banks[bank];
      var rest := t.Keys;
      while rest != {}
        invariant rest <= t.Keys && forall r :: r in t && r !in rest ==> !Unswappable(t, excluded, r)
      {
        ghost var some := Member(rest);
        var r :| r in rest;
        if Unswappable(t, excluded, r) {
          return Some((r, t[r].dst));
        }
        rest := rest - {r};
      }
      return None;
    }
  }

  predicate Unswappable(t: Table, excluded: set<int>, r: int) {
    r in t && !t[r].lock && r !in excluded && t[r].dst !in excluded
  }
}
