/** Randomised row swapping over the indirection table (ramulator2/src/dram_controller/impl/plugin/rrs.cpp). */
module RowSwap {
  import opened Wrappers
  import opened Rit

  // ------------------------------------------------------------ where the contents of the rows are

  function Transpose(a: int, b: int, x: int): int {
    if x == a then b else if x == b then a else x
  }

  /** Where the contents of row `r` are after rows have been exchanged pair by pair. */
  function Located(swaps: seq<(int, int)>, r: int): int {
    if swaps == [] then r
    else Transpose(swaps[|swaps| - 1].0, swaps[|swaps| - 1].1, Located(swaps[..|swaps| - 1], r))
  }

  lemma {:induction false} LocatedAppend(swaps: seq<(int, int)>, a: int, b: int, r: int)
    ensures Located(swaps + [(a, b)], r) == Transpose(a, b, Located(swaps, r))
  {
    assert (swaps + [(a, b)])[..|swaps|] == swaps;
  }

  /** The table sends every row to where its contents are. */
  ghost predicate Tracks(t: Table, swaps: seq<(int, int)>) {
    forall r :: Located(swaps, r) == Redirect(t, r)
  }

  /** A fresh swap, entered in the table. */
  lemma {:induction false} FreshTracks(t: Table, swaps: seq<(int, int)>, a: int, b: int)
    requires Involution(t) && Tracks(t, swaps) && a !in t && b !in t && a != b && 0 <= a && 0 <= b
    ensures Involution(Inserted(t, a, b)) && Tracks(Inserted(t, a, b), swaps + [(a, b)])
  {
    InsertKeepsIff(t, a, b);
    forall r
      ensures Located(swaps + [(a, b)], r) == Redirect(Inserted(t, a, b), r)
    {
      LocatedAppend(swaps, a, b, r);
    }
  }

  /** Undoing a swap, with its pair removed from the table. */
  lemma {:induction false} UnswapTracks(t: Table, swaps: seq<(int, int)>, a: int, b: int)
    requires Involution(t) && Tracks(t, swaps) && a in t && b == t[a].dst
    ensures Involution(Removed(t, a, b)) && Tracks(Removed(t, a, b), swaps + [(a, b)])
  {
    RemoveKeepsIff(t, a, b);
    forall r
      ensures Located(swaps + [(a, b)], r) == Redirect(Removed(t, a, b), r)
    {
      LocatedAppend(swaps, a, b, r);
      RedirectTwice(t, r);
    }
  }

  /** The table once both rows of a locked pair have been given new partners. */
  function Repaired(t: Table, row: int, prev: int, d0: int, d1: int): Table {
    Inserted(Inserted(Removed(t, row, prev), row, d1), prev, d0)
  }

  /** The two new rows are drawn independently; the table stays an involution exactly when they differ. */
  lemma {:induction false} RepairedInvolutionIff(t: Table, row: int, d0: int, d1: int)
    requires Involution(t) && row in t && d0 !in t && d1 !in t && 0 <= d0 && 0 <= d1
    ensures Involution(Repaired(t, row, t[row].dst, d0, d1)) <==> d0 != d1
    ensures d0 != d1 ==> |Repaired(t, row, t[row].dst, d0, d1)| == |t| + 2
    ensures d0 == d1 ==> |Repaired(t, row, t[row].dst, d0, d1)| <= |t| + 1
  {
    var prev := t[row].dst;
    var bare := Removed(t, row, prev);
    PairRemoved(t, row);
    InsertKeepsIff(bare, row, d1);
    InsertedSize(bare, row, d1);
    var once := Inserted(bare, row, d1);
    InsertKeepsIff(once, prev, d0);
    InsertedSize(once, prev, d0);
    if d0 == d1 {
      assert once[prev := Entry(d0, true)].Keys == once.Keys + {prev};
      assert Inserted(once, prev, d0).Keys == once.Keys + {prev};
      assert |Inserted(once, prev, d0)| == |Inserted(once, prev, d0).Keys| && |once| == |once.Keys|;
    }
  }

  /**
   * The rows of the pair are then found where their contents are, but the two new rows are not: the
   * exchanges that are issued leave their contents the other way round.
   */
  lemma {:induction false} RepairedTracksOthers(t: Table, swaps: seq<(int, int)>, row: int, d0: int, d1: int, r: int)
    requires Involution(t) && Tracks(t, swaps) && row in t && d0 !in t && d1 !in t && d0 != d1
    ensures var prev := t[row].dst;
            Located(swaps + [(row, d0)] + [(prev, d1)], r) == Redirect(Repaired(t, row, prev, d0, d1), r) <==>
            r != d0 && r != d1
  {
    var prev := t[row].dst;
    LocatedAppend(swaps + [(row, d0)], prev, d1, r);
    LocatedAppend(swaps, row, d0, r);
    RedirectTwice(t, r);
  }

  lemma {:induction false} RepairedTracksNot(t: Table, swaps: seq<(int, int)>, row: int, d0: int, d1: int)
    requires Involution(t) && Tracks(t, swaps) && row in t && d0 !in t && d1 !in t
    ensures !Tracks(Repaired(t, row, t[row].dst, d0, d1), swaps + [(row, d0)] + [(t[row].dst, d1)])
  {
    var prev := t[row].dst;
    var after, t' := swaps + [(row, d0)] + [(prev, d1)], Repaired(t, row, prev, d0, d1);
    if d0 != d1 {
      RepairedTracksOthers(t, swaps, row, d0, d1, d0);
      assert Located(after, d0) != Redirect(t', d0);
    } else {
      LocatedAppend(swaps + [(row, d0)], prev, d1, prev);
      LocatedAppend(swaps, row, d0, prev);
      assert Located(after, prev) != Redirect(t', prev);
    }
  }

  // ------------------------------------------------------------ the decision for one hot row

  predicate Pickable(t: Table, hot: set<int>, row: int, d: int) {
    d !in hot && d !in t && d != row
  }

  /** The draws that are accepted, in order. */
  function Picks(t: Table, hot: set<int>, row: int, draws: seq<int>): (p: seq<int>)
    ensures forall i :: 0 <= i < |p| ==> p[i] in draws && Pickable(t, hot, row, p[i])
  {
    if draws == [] then []
    else (if Pickable(t, hot, row, draws[0]) then [draws[0]] else []) + Picks(t, hot, row, draws[1..])
  }

  /** A further draw is accepted if it is not hot, has no partner, and is not the row itself. */
  lemma {:induction false} PicksOneMore(t: Table, hot: set<int>, row: int, draws: seq<int>, d: int)
    ensures Picks(t, hot, row, draws + [d]) ==
            Picks(t, hot, row, draws) + if d !in hot && d !in t && d != row then [d] else []
  {
    PicksSnoc(t, hot, row, draws, d);
  }

  lemma {:induction false} PicksSnoc(t: Table, hot: set<int>, row: int, draws: seq<int>, d: int)
    ensures Picks(t, hot, row, draws + [d]) ==
            Picks(t, hot, row, draws) + if Pickable(t, hot, row, d) then [d] else []
  {
    hide Pickable;
    var longer, tail := draws + [d], if Pickable(t, hot, row, d) then [d] else [];
    if draws == [] {
      assert longer[0] == d && longer[1..] == [];
      assert Picks(t, hot, row, []) == [];
    } else {
      var head := if Pickable(t, hot, row, draws[0]) then [draws[0]] else [];
      var rest := Picks(t, hot, row, draws[1..]);
      PicksSnoc(t, hot, row, draws[1..], d);
      assert longer[0] == draws[0] && longer[1..] == draws[1..] + [d];
      assert Picks(t, hot, row, longer) == head + (rest + tail);
      assert head + (rest + tail) == (head + rest) + tail;
    }
  }

  datatype Outcome =
    | Stopped
    | Fresh(dst: int)
    | Moved(prev: int, dst: int)
    | Both(prev: int, d0: int, d1: int)

  /** What is done with a hot row, given the rows drawn; without enough of them nothing is. */
  function Decision(t: Table, row: int, picks: seq<int>): Outcome {
    if row !in t then if picks == [] then Stopped else Fresh(picks[0])
    else if !t[row].lock then if picks == [] then Stopped else Moved(t[row].dst, picks[0])
    else if |picks| < 2 then Stopped else Both(t[row].dst, picks[0], picks[1])
  }

  /** The table after the decision, from the one left by making room. */
  function Decided(t: Table, row: int, o: Outcome): Table {
    match o
    case Stopped => t
    case Fresh(d) => Inserted(t, row, d)
    case Moved(prev, d) => Inserted(Removed(t, row, prev), row, d)
    case Both(prev, d0, d1) => Repaired(t, row, prev, d0, d1)
  }

  /** The exchanges of rows issued after making room. */
  function Exchanges(row: int, o: Outcome): seq<(int, int)> {
    match o
    case Stopped => []
    case Fresh(d) => [(row, d)]
    case Moved(prev, d) => [(row, prev), (row, d)]
    case Both(prev, d0, d1) => [(row, d0), (prev, d1)]
  }

  /** Rows that may be given to `row`: none is in the table, and none is the row itself. */
  ghost predicate Usable(t: Table, row: int, picks: seq<int>) {
    0 <= row && forall i :: 0 <= i < |picks| ==> 0 <= picks[i] && picks[i] !in t && picks[i] != row
  }

  /** Both rows of a locked pair get new partners: the row is locked and two draws are accepted. */
  predicate Repairs(t: Table, row: int, picks: seq<int>) {
    row in t && t[row].lock && |picks| >= 2
  }

  /**
   * The decision keeps the table an involution exactly unless the row is locked in a pair and the
   * second draw accepted equals the first.
   */
  lemma {:induction false} DecisionInvolutionIff(t: Table, row: int, picks: seq<int>)
    requires Involution(t) && Usable(t, row, picks)
    ensures Involution(Decided(t, row, Decision(t, row, picks))) <==> !(Repairs(t, row, picks) && picks[0] == picks[1])
    ensures |Decided(t, row, Decision(t, row, picks))| <= |t| + if row in t && !t[row].lock then 0 else 2
  {
    match Decision(t, row, picks)
    case Stopped =>
    case Fresh(d) =>
      InsertKeepsIff(t, row, d);
      InsertedSize(t, row, d);
    case Moved(prev, d) =>
      PairRemoved(t, row);
      InsertKeepsIff(Removed(t, row, prev), row, d);
      InsertedSize(Removed(t, row, prev), row, d);
    case Both(prev, d0, d1) =>
      RepairedInvolutionIff(t, row, d0, d1);
  }

  /** When both rows of a pair get the same partner, both are found at its place. */
  lemma {:induction false} SamePartnerCollides(t: Table, row: int, d: int)
    requires Involution(t) && row in t && d !in t
    ensures var prev, after := t[row].dst, Repaired(t, row, t[row].dst, d, d);
            prev in t && prev != row && Redirect(after, row) == d == Redirect(after, prev)
  {
  }

  /** So redirection after a decision is one-to-one exactly under the same condition. */
  lemma {:induction false} DecisionOneToOneIff(t: Table, row: int, picks: seq<int>)
    requires Involution(t) && Usable(t, row, picks)
    ensures OneToOne(Decided(t, row, Decision(t, row, picks))) <==> !(Repairs(t, row, picks) && picks[0] == picks[1])
  {
    hide Involution, Repaired, Inserted;
    DecisionInvolutionIff(t, row, picks);
    if Repairs(t, row, picks) && picks[0] == picks[1] {
      SamePartnerCollides(t, row, picks[0]);
    } else {
      InvolutionOneToOne(Decided(t, row, Decision(t, row, picks)));
    }
  }

  /** Among the first `n` rows two collide then exactly if the old partner is one of them. */
  lemma {:induction false} DecisionOneToOneBelowIff(t: Table, row: int, picks: seq<int>, n: int)
    requires Involution(t) && Usable(t, row, picks) && row < n
    ensures OneToOneBelow(Decided(t, row, Decision(t, row, picks)), n) <==>
              !(Repairs(t, row, picks) && picks[0] == picks[1] && t[row].dst < n)
  {
    var after := Decided(t, row, Decision(t, row, picks));
    if Repairs(t, row, picks) && picks[0] == picks[1] {
      SamePartnerCollides(t, row, picks[0]);
      if t[row].dst >= n {
        forall r, s | 0 <= r < n && 0 <= s < n && Redirect(after, r) == Redirect(after, s)
          ensures r == s
        {
          RedirectTwice(t, r);
          RedirectTwice(t, s);
        }
      }
    } else {
      DecisionOneToOneIff(t, row, picks);
    }
  }

  /**
   * The decision keeps the table sending every row to its contents exactly unless the row is locked in
   * a pair and two draws are accepted.
   */
  lemma {:induction false} DecisionTracksIff(t: Table, past: seq<(int, int)>, row: int, picks: seq<int>)
    requires Involution(t) && Tracks(t, past) && Usable(t, row, picks)
    ensures var o := Decision(t, row, picks);
            Tracks(Decided(t, row, o), past + Exchanges(row, o)) <==> !Repairs(t, row, picks)
  {
    hide Tracks, Located;
    match Decision(t, row, picks)
    case Stopped =>
      assert past + [] == past;
    case Fresh(d) =>
      FreshTracks(t, past, row, d);
    case Moved(prev, d) =>
      UnswapTracks(t, past, row, prev);
      FreshTracks(Removed(t, row, prev), past + [(row, prev)], row, d);
      assert past + [(row, prev), (row, d)] == past + [(row, prev)] + [(row, d)];
    case Both(prev, d0, d1) =>
      RepairedTracksNot(t, past, row, d0, d1);
      assert past + [(row, d0), (prev, d1)] == past + [(row, d0)] + [(prev, d1)];
  }

  /** A decision that is carried out always changes where the row itself is found. */
  lemma {:induction false} DecisionMoves(t: Table, row: int, picks: seq<int>)
    requires Involution(t) && Usable(t, row, picks) && !Decision(t, row, picks).Stopped?
    ensures Redirect(Decided(t, row, Decision(t, row, picks)), row) != Redirect(t, row)
  {
  }

  // ------------------------------------------------------------ making room

  /** The decision enters a pair more than it removes. */
  predicate NeedsRoom(t: Table, row: int) {
    row !in t || t[row].lock
  }

  /** There is no room, and no pair can be undone: the program ends. */
  ghost predicate Blocked(t: Table, capacity: int, hot: set<int>, row: int) {
    NeedsRoom(t, row) && Full(t, capacity) && forall r :: !Unswappable(t, hot, r)
  }

  /** If room is needed and there is none, one pair without hot and locked rows is undone; else nothing is. */
  ghost predicate MadeRoom(t: Table, capacity: int, hot: set<int>, row: int, mid: Table, undone: seq<(int, int)>) {
    if NeedsRoom(t, row) && Full(t, capacity) then
      exists a :: Unswappable(t, hot, a) && mid == Removed(t, a, t[a].dst) && undone == [(a, t[a].dst)]
    else mid == t && undone == []
  }

  /** In any table, making room leaves the entry of a hot row alone. */
  lemma {:induction false} RoomKeeps(t: Table, capacity: int, hot: set<int>, row: int, mid: Table,
                                     undone: seq<(int, int)>)
    requires MadeRoom(t, capacity, hot, row, mid, undone) && row in hot
    ensures (row in t <==> row in mid) && (row in t ==> mid[row] == t[row])
    ensures mid.Keys <= t.Keys && |mid| <= |t| && forall r :: r in mid ==> mid[r] == t[r]
    ensures Rooted(t) ==> Rooted(mid)
  {
    if NeedsRoom(t, row) && Full(t, capacity) {
      var a :| Unswappable(t, hot, a) && mid == Removed(t, a, t[a].dst) && undone == [(a, t[a].dst)];
      FewerRows(t, a, t[a].dst);
    }
  }

  lemma {:induction false} FewerRows(t: Table, a: int, b: int)
    ensures |Removed(t, a, b)| <= |t|
  {
    assert Removed(t, a, b).Keys == t.Keys - {a} - {b};
    assert |Removed(t, a, b)| == |Removed(t, a, b).Keys| && |t| == |t.Keys|;
  }

  /** A decision on rows that are not negative makes none. */
  lemma {:induction false} DecidedRooted(t: Table, row: int, picks: seq<int>)
    requires Rooted(t) && 0 <= row && forall i :: 0 <= i < |picks| ==> 0 <= picks[i]
    ensures Rooted(Decided(t, row, Decision(t, row, picks)))
  {
    hide Inserted, Removed, Rooted;
    match Decision(t, row, picks)
    case Stopped =>
    case Fresh(d) =>
      OperationsRooted(t, row, d);
    case Moved(prev, d) =>
      OperationsRooted(t, row, prev);
      OperationsRooted(Removed(t, row, prev), row, d);
    case Both(prev, d0, d1) =>
      PartnerRooted(t, row);
      OperationsRooted(t, row, prev);
      OperationsRooted(Removed(t, row, prev), row, d1);
      OperationsRooted(Inserted(Removed(t, row, prev), row, d1), prev, d0);
  }

  lemma {:induction false} PartnerRooted(t: Table, row: int)
    requires Rooted(t) && row in t
    ensures 0 <= t[row].dst
  {
  }

  lemma {:induction false} RoomFits(t: Table, capacity: nat, hot: set<int>, row: int, mid: Table,
                                    undone: seq<(int, int)>)
    requires Involution(t) && MadeRoom(t, capacity, hot, row, mid, undone) && row in hot
    requires |t| <= capacity && capacity % 2 == 0
    ensures Involution(mid) && |mid| <= |t|
    ensures row in t <==> row in mid
    ensures row in t ==> mid[row] == t[row]
    ensures NeedsRoom(mid, row) ==> |mid| + 2 <= capacity
  {
    hide Involution, Removed;
    EvenSize(t);
    RoomKeeps(t, capacity, hot, row, mid, undone);
    if NeedsRoom(t, row) && Full(t, capacity) {
      var a :| Unswappable(t, hot, a) && mid == Removed(t, a, t[a].dst) && undone == [(a, t[a].dst)];
      PairRemoved(t, a);
    }
  }

  lemma {:induction false} RoomTracks(t: Table, past: seq<(int, int)>, capacity: nat, hot: set<int>, row: int,
                                      mid: Table,
                                      undone: seq<(int, int)>)
    requires Involution(t) && MadeRoom(t, capacity, hot, row, mid, undone) && Tracks(t, past)
    ensures Tracks(mid, past + undone)
  {
    hide Tracks, Located;
    if NeedsRoom(t, row) && Full(t, capacity) {
      var a :| Unswappable(t, hot, a) && mid == Removed(t, a, t[a].dst) && undone == [(a, t[a].dst)];
      UnswapTracks(t, past, a, t[a].dst);
    } else {
      assert past + [] == past;
    }
  }

  /** Undoing a pair changes where one of its rows is found, unless the row decided on is moved as well. */
  lemma {:induction false} RoomMoves(t: Table, capacity: nat, hot: set<int>, row: int, mid: Table,
                                     undone: seq<(int, int)>)
    requires Involution(t) && MadeRoom(t, capacity, hot, row, mid, undone) && row in hot
    ensures Redirect(mid, row) == Redirect(t, row)
    ensures if undone == [] then mid == t else exists r :: Redirect(mid, r) != Redirect(t, r)
  {
    if undone != [] {
      var a :| Unswappable(t, hot, a) && mid == Removed(t, a, t[a].dst) && undone == [(a, t[a].dst)];
      assert Redirect(mid, a) == a && Redirect(t, a) == t[a].dst != a;
      assert row in t ==> t[row].dst != a;
    }
  }

  lemma {:induction false} PicksUsable(t: Table, hot: set<int>, row: int, draws: seq<int>)
    requires 0 <= row && forall i :: 0 <= i < |draws| ==> 0 <= draws[i]
    ensures Usable(t, row, Picks(t, hot, row, draws))
  {
  }

  /** The program goes on after the decision: the table has not grown beyond its capacity. */
  predicate Lasts(t: Table, row: int, o: Outcome, capacity: int) {
    o == Stopped || !Overflows(Decided(t, row, o), capacity)
  }

  /** What a hot row in the table `t` leads to: the outcome, the exchanges undone, and the table after it. */
  ghost predicate Swapped(t: Table, capacity: int, hot: set<int>, row: int, draws: seq<int>,
                          o: Outcome, ok: bool, mid: Table, undone: seq<(int, int)>, t': Table) {
    if Blocked(t, capacity, hot, row) then !ok && o == Stopped && t' == t == mid && undone == []
    else
      && MadeRoom(t, capacity, hot, row, mid, undone)
      && o == Decision(mid, row, Picks(mid, hot, row, draws))
      && ok == Lasts(mid, row, o, capacity) && (ok ==> t' == Decided(mid, row, o))
  }

  /**
   * The program ends for want of room exactly when a pair must be entered, the table is full, and each
   * of its rows is locked or hot or has a hot partner.
   */
  lemma {:induction false} BlockedIff(t: Table, capacity: nat, hot: set<int>, row: int)
    ensures Blocked(t, capacity, hot, row) <==>
            && (row !in t || t[row].lock) && capacity <= |t|
            && forall r :: r in t ==> t[r].lock || r in hot || t[r].dst in hot
  {
    forall r | r in t
      ensures Unswappable(t, hot, r) <==> !(t[r].lock || r in hot || t[r].dst in hot)
    {
    }
  }

  /** A pair that is undone to make room is neither locked nor hot, and room is made only when needed. */
  lemma {:induction false} UndoneIsCold(t: Table, capacity: nat, hot: set<int>, row: int, mid: Table,
                                        undone: seq<(int, int)>)
    requires MadeRoom(t, capacity, hot, row, mid, undone) && undone != []
    ensures var (a, b) := undone[0];
            && |undone| == 1 && a in t && b == t[a].dst && !t[a].lock && a !in hot && b !in hot
            && mid == t - {a, b} && (row !in t || t[row].lock) && capacity <= |t|
  {
    var (a, b) := undone[0];
    assert t - {a} - {b} == t - {a, b};
  }

  /**
   * Within an epoch swaps stand: a locked pair keeps its place in the table whatever row is decided on,
   * unless that is one of its own; and a row that has been swapped is locked.
   */
  lemma {:induction false} SwapsStand(t: Table, capacity: nat, hot: set<int>, row: int, draws: seq<int>,
                                      o: Outcome, mid: Table, undone: seq<(int, int)>, t': Table, r: int)
    requires Involution(t) && Swapped(t, capacity, hot, row, draws, o, true, mid, undone, t') && row in hot
    requires 0 <= row && forall i :: 0 <= i < |draws| ==> 0 <= draws[i]
    ensures !o.Stopped? ==> row in t' && t'[row].lock
    ensures r in t && t[r].lock && r != row && t[r].dst != row ==> r in t' && t'[r] == t[r]
  {
    hide Picks, Usable, Overflows;
    var picks := Picks(mid, hot, row, draws);
    PicksApart(mid, hot, row, draws);
    if undone != [] {
      UndoneIsCold(t, capacity, hot, row, mid, undone);
    }
    assert r in t && t[r].lock ==> r in mid && mid[r] == t[r];
    RoomKeeps(t, capacity, hot, row, mid, undone);
    assert row in t ==> t[t[row].dst].dst == row != t[row].dst;
    if !o.Stopped? {
      DecidedRow(mid, row, o, row);
      DecidedRow(mid, row, o, r);
    }
  }

  /** What a decision does to one row. */
  lemma {:induction false} DecidedRow(t: Table, row: int, o: Outcome, r: int)
    requires !o.Stopped? && (o.Fresh? || (row in t && o.prev == t[row].dst != row))
    requires if o.Both? then o.d0 !in t && o.d1 !in t && o.d0 != row && o.d1 != row else o.dst !in t && o.dst != row
    ensures r == row ==> r in Decided(t, row, o) && Decided(t, row, o)[r].lock
    ensures r in t && r != row && (o.Fresh? || r != o.prev) ==>
              r in Decided(t, row, o) && Decided(t, row, o)[r] == t[r]
  {
    match o
    case Fresh(d) =>
      InsertedRows(t, row, d, r);
    case Moved(prev, d) =>
      RemovedRows(t, row, prev, r);
      InsertedRows(Removed(t, row, prev), row, d, r);
    case Both(prev, d0, d1) =>
      RemovedRows(t, row, prev, r);
      InsertedRows(Removed(t, row, prev), row, d1, r);
      InsertedRows(Inserted(Removed(t, row, prev), row, d1), prev, d0, r);
  }

  lemma {:induction false} PicksApart(t: Table, hot: set<int>, row: int, draws: seq<int>)
    ensures forall i :: 0 <= i < |Picks(t, hot, row, draws)| ==>
              Picks(t, hot, row, draws)[i] !in t && Picks(t, hot, row, draws)[i] != row
  {
  }

  lemma {:induction false} NoRoomNeeded(t: Table, capacity: int, hot: set<int>, row: int)
    requires row in t && !t[row].lock
    ensures !Blocked(t, capacity, hot, row) && MadeRoom(t, capacity, hot, row, t, [])
  {
  }

  // ------------------------------------------------------------ the methods

  /** Draws rows until one is not hot, not swapped, and not the row itself. The draws are a parameter. */
  method GetRandRow(rit: RowIndirection, bank: nat, row: int, hot: set<int>, draws: seq<int>)
    returns (d: Option<int>, rest: seq<int>)
    requires bank < |rit.banks| && Rooted(rit.banks[bank])
    ensures var picks := Picks(rit.banks[bank], hot, row, draws);
            && (d.None? <==> picks == [])
            && (d.Some? ==> d.value == picks[0] && Picks(rit.banks[bank], hot, row, rest) == picks[1..])
    ensures forall i :: 0 <= i < |rest| ==> rest[i] in draws
  {
    var next := 0;
    while next < |draws|
      invariant next <= |draws|
      invariant Picks(rit.banks[bank], hot, row, draws[next..]) == Picks(rit.banks[bank], hot, row, draws)
    {
      var r := draws[next];
      assert draws[next..][1..] == draws[next + 1..];
      next := next + 1;
      if r !in hot && rit.CheckRit(bank, r) == -1 && r != row {
        return Some(r), draws[next..];
      }
    }
    return None, [];
  }

  /** Undoes one swap when the table is full; fails when there is none to undo. */
  method MakeRoom(rit: RowIndirection, bank: nat, row: int, hot: set<int>)
    returns (ok: bool, ghost undone: seq<(int, int)>)
    requires bank < |rit.banks| && NeedsRoom(rit.banks[bank], row)
    modifies rit`banks
    ensures |rit.banks| == |old(rit.banks)| && rit.banks == old(rit.banks)[bank := rit.banks[bank]]
    ensures ok <==> !Blocked(old(rit.banks)[bank], rit.capacity, hot, row)
    ensures if ok then MadeRoom(old(rit.banks)[bank], rit.capacity, hot, row, rit.banks[bank], undone)
            else rit.banks == old(rit.banks) && undone == []
  {
    hide Involution, Removed;
    ok, undone := true, [];
    if rit.IsFull(bank) {
      var pair := rit.GetUnswapPair(bank, hot);
      if pair.None? {
        return false, [];
      }
      undone := [pair.value];
      rit.Remove(bank, pair.value.0, pair.value.1);
    }
  }

  /** The size and the shape of the table once the decision has been carried out. */
  lemma {:induction false} Settled(t: Table, capacity: nat, hot: set<int>, row: int, mid: Table,
                                   undone: seq<(int, int)>,
                                   draws: seq<int>)
    requires Involution(t) && |t| <= capacity && capacity % 2 == 0 && row in hot && 0 <= row
    requires MadeRoom(t, capacity, hot, row, mid, undone) && forall i :: 0 <= i < |draws| ==> 0 <= draws[i]
    ensures Involution(mid) && (row in t <==> row in mid) && (row in t ==> mid[row] == t[row])
    ensures NeedsRoom(t, row) ==> |mid| + 2 <= capacity
    ensures var picks := Picks(mid, hot, row, draws);
            var after := Decided(mid, row, Decision(mid, row, picks));
            && Usable(mid, row, picks) && |after| <= capacity
            && (Involution(after) <==> !(Repairs(t, row, picks) && picks[0] == picks[1]))
  {
    RoomFits(t, capacity, hot, row, mid, undone);
    PicksUsable(mid, hot, row, draws);
    DecisionInvolutionIff(mid, row, Picks(mid, hot, row, draws));
  }

  /** In valid tables a decision fits, and they stay valid unless it draws a row twice. */
  lemma {:induction false} SettledValid(rit: RowIndirection, was: seq<Table>, bank: nat, row: int, hot: set<int>,
                                        mid: Table, undone: seq<(int, int)>, draws: seq<int>, ok: bool)
    requires bank < |was| == |rit.banks| && rit.banks == was[bank := rit.banks[bank]]
    requires 0 <= rit.capacity && rit.capacity % 2 == 0
    requires forall b :: 0 <= b < |was| ==> Involution(was[b]) && |was[b]| <= rit.capacity
    requires row in hot && 0 <= row && forall i :: 0 <= i < |draws| ==> 0 <= draws[i]
    requires MadeRoom(was[bank], rit.capacity, hot, row, mid, undone)
    requires var o := Decision(mid, row, Picks(mid, hot, row, draws));
             ok == Lasts(mid, row, o, rit.capacity) && (ok ==> rit.banks[bank] == Decided(mid, row, o))
    ensures var picks := Picks(mid, hot, row, draws);
            && ok && |rit.banks[bank]| <= rit.capacity
            && (rit.Valid() <==> !(Repairs(was[bank], row, picks) && picks[0] == picks[1]))
  {
    hide Picks, Decision, Decided, Involution, MadeRoom, Repairs;
    Settled(was[bank], rit.capacity, hot, row, mid, undone, draws);
    StaysValid(rit, was, bank);
  }

  /** With the other banks as they were, validity is a matter of the one bank. */
  lemma {:induction false} StaysValid(rit: RowIndirection, was: seq<Table>, bank: nat)
    requires bank < |was| == |rit.banks| && rit.banks == was[bank := rit.banks[bank]]
    requires 0 <= rit.capacity && rit.capacity % 2 == 0
    requires forall b :: 0 <= b < |was| ==> Involution(was[b]) && |was[b]| <= rit.capacity
    ensures rit.Valid() <==> Involution(rit.banks[bank]) && |rit.banks[bank]| <= rit.capacity
  {
  }

  method SwapFresh(rit: RowIndirection, bank: nat, row: int, hot: set<int>, draws: seq<int>)
    returns (o: Outcome, ok: bool)
    requires bank < |rit.banks| && Rooted(rit.banks[bank]) && row !in rit.banks[bank]
    modifies rit`banks
    ensures var t := old(rit.banks)[bank];
            && o == Decision(t, row, Picks(t, hot, row, draws))
            && ok == Lasts(t, row, o, rit.capacity) && rit.banks == old(rit.banks)[bank := Decided(t, row, o)]
  {
    hide Rooted;
    var d, rest := GetRandRow(rit, bank, row, hot, draws);
    if d.None? {
      return Stopped, true;
    }
    o := Fresh(d.value);
    ok := rit.Insert(bank, row, d.value);
  }

  method SwapMoved(rit: RowIndirection, bank: nat, row: int, prev: int, hot: set<int>, draws: seq<int>)
    returns (o: Outcome, ok: bool)
    requires bank < |rit.banks| && Rooted(rit.banks[bank])
    requires row in rit.banks[bank] && !rit.banks[bank][row].lock && prev == rit.banks[bank][row].dst
    modifies rit`banks
    ensures var t := old(rit.banks)[bank];
            && o == Decision(t, row, Picks(t, hot, row, draws))
            && ok == Lasts(t, row, o, rit.capacity) && rit.banks == old(rit.banks)[bank := Decided(t, row, o)]
  {
    hide Rooted;
    var d, rest := GetRandRow(rit, bank, row, hot, draws);
    if d.None? {
      return Stopped, true;
    }
    o := Moved(prev, d.value);
    rit.Remove(bank, row, prev);
    ok := rit.Insert(bank, row, d.value);
  }

  /** The first insertion may already end the program; the table is then left as it is. */
  method SwapBoth(rit: RowIndirection, bank: nat, row: int, prev: int, hot: set<int>, draws: seq<int>)
    returns (o: Outcome, ok: bool)
    requires bank < |rit.banks| && Rooted(rit.banks[bank])
    requires row in rit.banks[bank] && rit.banks[bank][row].lock && prev == rit.banks[bank][row].dst
    modifies rit`banks
    ensures |rit.banks| == |old(rit.banks)| && rit.banks == old(rit.banks)[bank := rit.banks[bank]]
    ensures var t := old(rit.banks)[bank];
            && o == Decision(t, row, Picks(t, hot, row, draws))
            && ok == Lasts(t, row, o, rit.capacity) && (ok ==> rit.banks[bank] == Decided(t, row, o))
  {
    hide Rooted, Inserted, Removed, Pickable;
    var d0, d1, rest;
    d0, rest := GetRandRow(rit, bank, row, hot, draws);
    if d0.None? {
      return Stopped, true;
    }
    d1, rest := GetRandRow(rit, bank, row, hot, rest);
    if d1.None? {
      return Stopped, true;
    }
    o := Both(prev, d0.value, d1.value);
    rit.Remove(bank, row, prev);
    InsertedSize(Inserted(rit.banks[bank], row, d1.value), prev, d0.value);
    ok := rit.Insert(bank, row, d1.value);
    if ok {
      ok := rit.Insert(bank, prev, d0.value);
    }
  }

  /**
   * Gives a hot row a new partner, in any table. A row that is not swapped gets one; a pair from an
   * earlier epoch is undone first; both rows of a pair of this epoch get new partners. The rows given
   * are the first draws accepted. The program ends (`ok` is false) if room is needed and no pair can be
   * undone, or if the table then exceeds its capacity. A valid table never does, and it stays valid
   * exactly unless the row is locked in a pair and the second draw accepted equals the first.
   */
  method SwapRow(rit: RowIndirection, bank: nat, row: int, hot: set<int>, draws: seq<int>)
    returns (o: Outcome, ok: bool, ghost mid: Table, ghost undone: seq<(int, int)>)
    requires bank < |rit.banks| && Rooted(rit.banks[bank]) && row in hot && 0 <= row
    requires forall i :: 0 <= i < |draws| ==> 0 <= draws[i]
    modifies rit`banks
    ensures |rit.banks| == |old(rit.banks)| && rit.banks == old(rit.banks)[bank := rit.banks[bank]]
    ensures Swapped(old(rit.banks)[bank], rit.capacity, hot, row, draws, o, ok, mid, undone, rit.banks[bank])
    ensures ok ==> Rooted(rit.banks[bank])
    ensures old(rit.Valid()) ==>
              var t, picks := old(rit.banks)[bank], Picks(mid, hot, row, draws);
              && (ok <==> !Blocked(t, rit.capacity, hot, row)) && |rit.banks[bank]| <= rit.capacity
              && (rit.Valid() <==> !ok || !(Repairs(t, row, picks) && picks[0] == picks[1]))
  {
    hide Picks, Decision, Decided, Involution, Rooted, Blocked, MadeRoom, Repairs, Lasts;
    ghost var t, was := rit.banks[bank], rit.banks;
    var prev := rit.CheckRit(bank, row);
    var locked := false;
    if prev != -1 {
      locked := rit.IsLocked(bank, row);
      assert rit.banks == was;
    }
    if prev != -1 && !locked {
      mid, undone := t, [];
      NoRoomNeeded(t, rit.capacity, hot, row);
      o, ok := SwapMoved(rit, bank, row, prev, hot, draws);
    } else {
      ok, undone := MakeRoom(rit, bank, row, hot);
      mid := rit.banks[bank];
      if !ok {
        return Stopped, false, mid, undone;
      }
      RoomKeeps(t, rit.capacity, hot, row, mid, undone);
      if prev == -1 {
        o, ok := SwapFresh(rit, bank, row, hot, draws);
      } else {
        o, ok := SwapBoth(rit, bank, row, prev, hot, draws);
      }
    }
    DecidedRooted(mid, row, Picks(mid, hot, row, draws));
    if old(rit.Valid()) {
      SettledValid(rit, was, bank, row, hot, mid, undone, draws, ok);
    }
  }

  // ------------------------------------------------------------ rows beyond the bank

  /** All rows in the table are rows of a bank of `n` rows. */
  ghost predicate Below(t: Table, n: int) {
    forall r :: r in t ==> r < n && t[r].dst < n
  }

  /** The rows that the outcome uses are rows of the bank. */
  predicate UsesBelow(o: Outcome, n: int) {
    match o
    case Stopped => true
    case Fresh(d) => d < n
    case Moved(_, d) => d < n
    case Both(_, d0, d1) => d0 < n && d1 < n
  }

  lemma {:induction false} InsertedBelowIff(t: Table, src: int, dst: int, n: int)
    requires Below(t, n)
    ensures Below(Inserted(t, src, dst), n) <==> src < n && dst < n
  {
    assert src in Inserted(t, src, dst) && dst in Inserted(t, src, dst);
  }

  lemma {:induction false} RemovedBelow(t: Table, src: int, dst: int, n: int)
    requires Below(t, n)
    ensures Below(Removed(t, src, dst), n)
  {
  }

  /** Any table stays within the bank exactly when the draws that are used do. */
  lemma {:induction false} DecisionBelowIff(t: Table, row: int, picks: seq<int>, n: int)
    requires Below(t, n) && row < n
    ensures Below(Decided(t, row, Decision(t, row, picks)), n) <==> UsesBelow(Decision(t, row, picks), n)
  {
    hide Inserted, Removed;
    match Decision(t, row, picks)
    case Stopped =>
    case Fresh(d) =>
      InsertedBelowIff(t, row, d, n);
    case Moved(prev, d) =>
      RemovedBelow(t, row, prev, n);
      InsertedBelowIff(Removed(t, row, prev), row, d, n);
    case Both(prev, d0, d1) =>
      RemovedBelow(t, row, prev, n);
      var once := Inserted(Removed(t, row, prev), row, d1);
      InsertedBelowIff(Removed(t, row, prev), row, d1, n);
      if d1 < n {
        InsertedBelowIff(once, prev, d0, n);
      } else {
        KeysInserted(Removed(t, row, prev), row, d1);
        KeysInserted(once, prev, d0);
        assert d1 in Inserted(once, prev, d0);
      }
  }

  lemma {:induction false} KeysInserted(t: Table, src: int, dst: int)
    ensures forall r :: r in t || r == src || r == dst ==> r in Inserted(t, src, dst)
  {
  }

  /** The draws range from 0 to the number of rows inclusive, and that last value, no row of the bank, is accepted. */
  lemma {:induction false} TopDrawPickable(t: Table, hot: set<int>, row: int, n: int)
    requires Below(t, n) && row < n && forall r :: r in hot ==> r < n
    ensures Pickable(t, hot, row, n)
  {
  }

  // ------------------------------------------------------------ whole runs on one table

  /**
   * The end of an epoch, or a decision of the plugin of one channel: the state it met after making
   * room, and the rows it drew. The plugins of all channels share the table.
   */
  datatype Step =
    | EndEpoch
    | Decide(channel: nat, row: int, hot: set<int>, mid: Table, undone: seq<(int, int)>, draws: seq<int>)
  {
    function Accepted(): seq<int>
      requires Decide?
    {
      Picks(mid, hot, row, draws)
    }

    function Outcome(): Outcome
      requires Decide?
    {
      Decision(mid, row, Accepted())
    }

    /** The step changes no table and exchanges no rows. */
    predicate Idle() {
      Decide? ==> undone == [] && Outcome().Stopped?
    }

    /** The step gives both rows of a locked pair new partners. */
    predicate Repairing() {
      Decide? && Repairs(mid, row, Accepted())
    }

    /** And they are the same partner. */
    predicate DrawsTwice() {
      Repairing() && Accepted()[0] == Accepted()[1]
    }
  }

  function TableAfter(steps: seq<Step>): Table {
    if steps == [] then map[]
    else match Last(steps)
         case EndEpoch => Unlocked(TableAfter(Init(steps)))
         case Decide(_, row, _, mid, _, _) => Decided(mid, row, Last(steps).Outcome())
  }

  /** The exchanges of rows that have been issued in one channel. */
  function IssuedIn(steps: seq<Step>, channel: nat): seq<(int, int)> {
    if steps == [] then []
    else match Last(steps)
         case EndEpoch => IssuedIn(Init(steps), channel)
         case Decide(c, row, _, _, undone, _) =>
           if c == channel then IssuedIn(Init(steps), channel) + undone + Exchanges(row, Last(steps).Outcome())
           else IssuedIn(Init(steps), channel)
  }

  /** Each step is one that `SwapRow` or `Unlock` makes where it stands, and after which the program goes on. */
  ghost predicate ValidRun(steps: seq<Step>, capacity: nat) {
    steps == [] ||
    (ValidRun(Init(steps), capacity) &&
     match Last(steps)
     case EndEpoch => true
     case Decide(_, row, hot, mid, undone, draws) =>
       && 0 <= row && row in hot && (forall i :: 0 <= i < |draws| ==> 0 <= draws[i])
       && MadeRoom(TableAfter(Init(steps)), capacity, hot, row, mid, undone)
       && Lasts(mid, row, Last(steps).Outcome(), capacity))
  }

  /** The table is an involution within its capacity at every point of the run. */
  ghost predicate InvolutionThroughout(steps: seq<Step>, capacity: nat) {
    && Involution(TableAfter(steps)) && |TableAfter(steps)| <= capacity
    && (steps != [] ==> InvolutionThroughout(Init(steps), capacity))
  }

  /** It is so exactly when no step draws the same partner for both rows of a locked pair. */
  lemma {:induction false} InvolutionThroughoutIff(steps: seq<Step>, capacity: nat)
    requires ValidRun(steps, capacity) && capacity % 2 == 0
    ensures InvolutionThroughout(steps, capacity) <==> forall s :: s in steps ==> !s.DrawsTwice()
  {
    hide MadeRoom, Picks, Decided, Decision, Repairs, Inserted, Removed;
    if steps != [] {
      var before, last := Init(steps), Last(steps);
      InvolutionThroughoutIff(before, capacity);
      InLast(steps);
      if InvolutionThroughout(before, capacity) {
        match last
        case EndEpoch =>
          UnlockKeeps(TableAfter(before));
        case Decide(_, row, hot, mid, undone, draws) =>
          DrawsTwiceBreaks(TableAfter(before), capacity, last);
      }
    }
  }

  /** No two rows are found at the same place, at any point of the run. */
  ghost predicate OneToOneThroughout(steps: seq<Step>) {
    OneToOne(TableAfter(steps)) && (steps != [] ==> OneToOneThroughout(Init(steps)))
  }

  /** It is so exactly under the same condition. */
  lemma {:induction false} OneToOneThroughoutIff(steps: seq<Step>, capacity: nat)
    requires ValidRun(steps, capacity) && capacity % 2 == 0
    ensures OneToOneThroughout(steps) <==> forall s :: s in steps ==> !s.DrawsTwice()
  {
    hide MadeRoom, Picks, Decided, Decision, Repairs, Inserted, Removed, OneToOne, Lasts, Involution, Unlocked;
    if steps == [] {
      EmptyInvolution();
      InvolutionOneToOne(map[]);
    } else {
      var before, last := Init(steps), Last(steps);
      OneToOneThroughoutIff(before, capacity);
      InLast(steps);
      if OneToOneThroughout(before) {
        InvolutionThroughoutIff(before, capacity);
        match last
        case EndEpoch =>
          UnlockKeeps(TableAfter(before));
          InvolutionOneToOne(Unlocked(TableAfter(before)));
        case Decide(_, row, hot, mid, undone, draws) =>
          Settled(TableAfter(before), capacity, hot, row, mid, undone, draws);
          DecisionOneToOneIff(mid, row, last.Accepted());
          assert last in steps && TableAfter(steps) == Decided(mid, row, last.Outcome());
      }
    }
  }

  /** No row and no partner is ever negative, whatever is drawn. */
  lemma {:induction false} RunRooted(steps: seq<Step>, capacity: nat)
    requires ValidRun(steps, capacity)
    ensures Rooted(TableAfter(steps))
  {
    hide MadeRoom, Decided, Decision, Rooted, Lasts, Unlocked;
    if steps == [] {
      EmptyRooted();
    } else {
      var t := TableAfter(Init(steps));
      RunRooted(Init(steps), capacity);
      match Last(steps)
      case EndEpoch =>
        OperationsRooted(t, 0, 0);
      case Decide(_, row, hot, mid, undone, draws) =>
        RoomKeeps(t, capacity, hot, row, mid, undone);
        DecidedRooted(mid, row, Last(steps).Accepted());
    }
  }

  lemma {:induction false} EmptyRooted()
    ensures Rooted(map[])
  {
  }

  lemma {:induction false} DrawsTwiceBreaks(t: Table, capacity: nat, s: Step)
    requires s.Decide? && Involution(t) && |t| <= capacity && capacity % 2 == 0
    requires 0 <= s.row && s.row in s.hot && (forall i :: 0 <= i < |s.draws| ==> 0 <= s.draws[i])
    requires MadeRoom(t, capacity, s.hot, s.row, s.mid, s.undone)
    ensures var after := Decided(s.mid, s.row, s.Outcome());
            (Involution(after) <==> !s.DrawsTwice()) && |after| <= capacity
  {
    hide Involution, MadeRoom, Picks, Decided, Decision;
    Settled(t, capacity, s.hot, s.row, s.mid, s.undone, s.draws);
  }

  lemma {:induction false} InLast(steps: seq<Step>)
    requires steps != []
    ensures forall s :: s in steps <==> s in Init(steps) || s == Last(steps)
  {
    assert steps == Init(steps) + [Last(steps)];
  }

  lemma {:induction false} NotPartners(t: Table, r: int)
    requires r in t && t[r].dst in t && t[t[r].dst].dst != r
    ensures !Involution(t)
  {
  }

  lemma {:induction false} SamePickTwice(t: Table, hot: set<int>, row: int, d: int)
    requires Pickable(t, hot, row, d)
    ensures Picks(t, hot, row, [d]) == [d] && Picks(t, hot, row, [d, d]) == [d, d]
  {
    assert [d, d][1..] == [d] && [d][1..] == [];
  }

  /** A first swap of rows 1 and 2 in an empty table. */
  const FIRST_SWAP := Decide(0, 1, {1}, map[], [], [2])

  const FIRST_PAIR: Table := map[1 := Entry(2, true), 2 := Entry(1, true)]

  lemma {:induction false} FirstSwap()
    ensures ValidRun([FIRST_SWAP], 4) && TableAfter([FIRST_SWAP]) == FIRST_PAIR && |FIRST_PAIR| == 2
  {
    hide Picks;
    assert Init([FIRST_SWAP]) == [];
    SamePickTwice(map[], {1}, 1, 2);
    InsertedSize(map[], 1, 2);
    assert Inserted(map[], 1, 2) == FIRST_PAIR;
    assert ValidRun([], 4);
  }

  /** The table once row 5 has been drawn twice for the pair. */
  lemma {:induction false} SecondSwap()
    ensures var t := Repaired(FIRST_PAIR, 1, 2, 5, 5);
            && 1 in t && t[1].dst == 5 && 2 in t && t[2].dst == 5 && 5 in t && t[5].dst == 2 && |t| <= 4
  {
    FirstSwap();
    FewerRows(FIRST_PAIR, 1, 2);
    InsertedSize(Removed(FIRST_PAIR, 1, 2), 1, 5);
    assert Repaired(FIRST_PAIR, 1, 2, 5, 5) == map[1 := Entry(5, true), 2 := Entry(5, true), 5 := Entry(2, true)];
  }

  /**
   * Two decisions for the same row, the second of which draws a row twice, break the involution: rows 1
   * and 2 are then both found at row 5.
   */
  lemma {:induction false} DoubleDrawBreaks()
    ensures var steps := [FIRST_SWAP, Decide(0, 1, {1}, FIRST_PAIR, [], [5, 5])];
            && ValidRun(steps, 4) && !Involution(TableAfter(steps))
            && Redirect(TableAfter(steps), 1) == 5 == Redirect(TableAfter(steps), 2)
  {
    hide Picks, Involution, Repaired, Inserted, Removed;
    var second := Decide(0, 1, {1}, FIRST_PAIR, [], [5, 5]);
    var steps := [FIRST_SWAP, second];
    assert Init(steps) == [FIRST_SWAP];
    FirstSwap();
    SecondSwap();
    SamePickTwice(FIRST_PAIR, {1}, 1, 5);
    assert second.Outcome() == Both(2, 5, 5);
    NotPartners(TableAfter(steps), 1);
  }

  // ------------------------------------------------------------ rows beyond the bank, over whole runs

  /** All rows in the table are rows of the bank, at every point of the run. */
  ghost predicate BelowThroughout(steps: seq<Step>, n: int) {
    Below(TableAfter(steps), n) && (steps != [] ==> BelowThroughout(Init(steps), n))
  }

  /** The rows a step decides on, and the draws it uses. */
  predicate DecidesBelow(s: Step, n: int) {
    s.Decide? ==> s.row < n
  }

  predicate DrawsBelow(s: Step, n: int) {
    s.Decide? ==> UsesBelow(s.Outcome(), n)
  }

  /** It is so exactly when every draw used is a row of the bank, double draws or not. */
  lemma {:induction false} BelowThroughoutIff(steps: seq<Step>, capacity: nat, n: int)
    requires ValidRun(steps, capacity) && forall s :: s in steps ==> DecidesBelow(s, n)
    ensures BelowThroughout(steps, n) <==> forall s :: s in steps ==> DrawsBelow(s, n)
  {
    hide MadeRoom, Decided, Decision, Lasts, Below, Unlocked, UsesBelow;
    if steps == [] {
      EmptyBelow(n);
    } else {
      var before, last := Init(steps), Last(steps);
      InLast(steps);
      BelowThroughoutIff(before, capacity, n);
      if BelowThroughout(before, n) {
        match last
        case EndEpoch =>
          UnlockedBelow(TableAfter(before), n);
        case Decide(_, row, hot, mid, undone, draws) =>
          assert DecidesBelow(last, n);
          RoomKeeps(TableAfter(before), capacity, hot, row, mid, undone);
          FewerBelow(TableAfter(before), mid, n);
          DecisionBelowIff(mid, row, last.Accepted(), n);
          assert last in steps && TableAfter(steps) == Decided(mid, row, last.Outcome());
      }
    }
  }

  lemma {:induction false} EmptyBelow(n: int)
    ensures Below(map[], n)
  {
  }

  lemma {:induction false} UnlockedBelow(t: Table, n: int)
    requires Below(t, n)
    ensures Below(Unlocked(t), n)
  {
  }

  lemma {:induction false} FewerBelow(t: Table, mid: Table, n: int)
    requires Below(t, n) && mid.Keys <= t.Keys && forall r :: r in mid ==> mid[r] == t[r]
    ensures Below(mid, n)
  {
  }

  /** In a bank of `n` rows, a first swap that draws the row number n sends row 1 there. */
  lemma {:induction false} TopDrawMisplaced(n: int)
    requires n >= 2
    ensures var steps := [Decide(0, 1, {1}, map[], [], [n])];
            ValidRun(steps, 4) && Redirect(TableAfter(steps), 1) == n && !BelowThroughout(steps, n)
  {
    var s := Decide(0, 1, {1}, map[], [], [n]);
    assert Init([s]) == [];
    SamePickTwice(map[], {1}, 1, n);
    InsertedSize(map[], 1, n);
    assert ValidRun([], 4) && ValidRun([s], 4);
    assert 1 in TableAfter([s]);
  }

  // ------------------------------------------------------------ contents, on one and on several channels

  /** In every channel each row is found where its contents are. */
  ghost predicate TrackedNow(steps: seq<Step>, channels: nat) {
    forall c: nat :: c < channels ==> Tracks(TableAfter(steps), IssuedIn(steps, c))
  }

  /** And so at every point of the run. */
  ghost predicate TrackedThroughout(steps: seq<Step>, channels: nat) {
    TrackedNow(steps, channels) && (steps != [] ==> TrackedThroughout(Init(steps), channels))
  }

  /** A step that leaves the contents of every channel where the table says. */
  predicate Harmless(s: Step, channels: nat) {
    if channels == 1 then !s.Repairing() else s.Idle()
  }

  ghost predicate Within(steps: seq<Step>, channels: nat) {
    forall s :: s in steps && s.Decide? ==> s.channel < channels
  }

  /**
   * With one channel the contents are found throughout exactly when no locked pair is re-paired. With
   * more than one they are so exactly when nothing is ever swapped: the table has no channel, so a
   * swap in one channel redirects the rows of all others, whose contents have not moved.
   */
  lemma {:induction false} TrackedThroughoutIff(steps: seq<Step>, capacity: nat, channels: nat)
    requires ValidRun(steps, capacity) && capacity % 2 == 0 && channels >= 1 && Within(steps, channels)
    ensures TrackedThroughout(steps, channels) <==> forall s :: s in steps ==> Harmless(s, channels)
  {
    hide TrackedNow, MadeRoom, Harmless;
    if steps == [] {
      NothingMoved(channels);
    } else {
      var before, last := Init(steps), Last(steps);
      InLast(steps);
      TrackedThroughoutIff(before, capacity, channels);
      if TrackedThroughout(before, channels) {
        HarmlessKeeps(before, capacity, channels);
        match last
        case EndEpoch =>
          assert steps == before + [EndEpoch];
          EpochTracks(before, channels);
        case Decide(c, row, hot, mid, undone, draws) =>
          StepTracksIff(steps, capacity, channels);
      }
    }
  }

  lemma {:induction false} NothingMoved(channels: nat)
    ensures TrackedNow([], channels)
  {
  }

  /** Harmless steps draw no row twice. */
  lemma {:induction false} HarmlessKeeps(steps: seq<Step>, capacity: nat, channels: nat)
    requires ValidRun(steps, capacity) && capacity % 2 == 0 && forall s :: s in steps ==> Harmless(s, channels)
    ensures Involution(TableAfter(steps)) && |TableAfter(steps)| <= capacity
  {
    InvolutionThroughoutIff(steps, capacity);
  }

  lemma {:induction false} EpochTracks(before: seq<Step>, channels: nat)
    requires Involution(TableAfter(before))
    requires TrackedNow(before, channels)
    ensures Harmless(EndEpoch, channels) && TrackedNow(before + [EndEpoch], channels)
  {
    UnlockKeeps(TableAfter(before));
    assert Init(before + [EndEpoch]) == before;
  }

  /** A decision keeps all channels in order exactly when it is harmless. */
  lemma {:induction false} StepTracksIff(steps: seq<Step>, capacity: nat, channels: nat)
    requires steps != [] && Last(steps).Decide? && Last(steps).channel < channels && capacity % 2 == 0
    requires ValidRun(steps, capacity)
    requires Involution(TableAfter(Init(steps))) && |TableAfter(Init(steps))| <= capacity
    requires TrackedNow(Init(steps), channels)
    ensures TrackedNow(steps, channels) <==> Harmless(Last(steps), channels)
  {
    hide Tracks, Located, Decided, Decision, Picks, MadeRoom, Repairs;
    var t, s, c := TableAfter(Init(steps)), Last(steps), Last(steps).channel;
    OwnChannelIff(t, IssuedIn(Init(steps), c), capacity, s);
    assert IssuedIn(steps, c) == IssuedIn(Init(steps), c) + s.undone + Exchanges(s.row, s.Outcome());
    assert TableAfter(steps) == Decided(s.mid, s.row, s.Outcome());
    if channels > 1 {
      var d: nat := if c == 0 then 1 else 0;
      OtherChannelIff(t, IssuedIn(Init(steps), d), capacity, s);
      assert IssuedIn(steps, d) == IssuedIn(Init(steps), d);
      if s.Idle() {
        assert TableAfter(steps) == t;
        forall k: nat | k < channels
          ensures Tracks(TableAfter(steps), IssuedIn(steps, k))
        {
          NothingIssued(steps, k);
        }
      }
    }
  }

  lemma {:induction false} NothingIssued(steps: seq<Step>, channel: nat)
    requires steps != [] && Last(steps).Idle()
    ensures IssuedIn(steps, channel) == IssuedIn(Init(steps), channel)
  {
    assert IssuedIn(Init(steps), channel) + [] + [] == IssuedIn(Init(steps), channel);
  }

  /** The channel whose rows are exchanged is tracked exactly unless a locked pair is re-paired. */
  lemma {:induction false} OwnChannelIff(t: Table, past: seq<(int, int)>, capacity: nat, s: Step)
    requires s.Decide? && Involution(t) && |t| <= capacity && capacity % 2 == 0 && Tracks(t, past)
    requires 0 <= s.row && s.row in s.hot && (forall i :: 0 <= i < |s.draws| ==> 0 <= s.draws[i])
    requires MadeRoom(t, capacity, s.hot, s.row, s.mid, s.undone)
    ensures var issued := past + s.undone + Exchanges(s.row, s.Outcome());
            Tracks(Decided(s.mid, s.row, s.Outcome()), issued) <==> !s.Repairing()
    ensures s.Idle() ==> s.mid == t && Decided(s.mid, s.row, s.Outcome()) == t
  {
    hide Tracks, Located;
    Settled(t, capacity, s.hot, s.row, s.mid, s.undone, s.draws);
    RoomTracks(t, past, capacity, s.hot, s.row, s.mid, s.undone);
    DecisionTracksIff(s.mid, past + s.undone, s.row, s.Accepted());
    RoomMoves(t, capacity, s.hot, s.row, s.mid, s.undone);
  }

  /** Any other channel is tracked exactly if nothing is done at all. */
  lemma {:induction false} OtherChannelIff(t: Table, past: seq<(int, int)>, capacity: nat, s: Step)
    requires s.Decide? && Involution(t) && |t| <= capacity && capacity % 2 == 0 && Tracks(t, past)
    requires 0 <= s.row && s.row in s.hot && (forall i :: 0 <= i < |s.draws| ==> 0 <= s.draws[i])
    requires MadeRoom(t, capacity, s.hot, s.row, s.mid, s.undone)
    ensures Tracks(Decided(s.mid, s.row, s.Outcome()), past) <==> s.Idle()
  {
    var t' := Decided(s.mid, s.row, s.Outcome());
    Settled(t, capacity, s.hot, s.row, s.mid, s.undone, s.draws);
    RoomMoves(t, capacity, s.hot, s.row, s.mid, s.undone);
    if !s.Outcome().Stopped? {
      DecisionMoves(s.mid, s.row, s.Accepted());
      assert Located(past, s.row) != Redirect(t', s.row);
    } else if s.undone != [] {
      var r :| Redirect(s.mid, r) != Redirect(t, r);
      assert Located(past, r) != Redirect(t', r);
    }
  }

  /** With two channels a single swap in the first sends row 1 of the second to row 2, where it is not. */
  lemma {:induction false} SecondChannelMisled()
    ensures var steps := [Decide(0, 1, {1}, map[], [], [2])];
            && ValidRun(steps, 4) && Within(steps, 2)
            && Redirect(TableAfter(steps), 1) == 2 && Located(IssuedIn(steps, 1), 1) == 1
            && !TrackedThroughout(steps, 2) && TrackedThroughout(steps, 1)
  {
    var s := Decide(0, 1, {1}, map[], [], [2]);
    assert Init([s]) == [];
    assert s.Accepted() == [2];
    assert ValidRun([], 4) && ValidRun([s], 4);
    TrackedThroughoutIff([s], 4, 1);
    TrackedThroughoutIff([s], 4, 2);
  }
}
