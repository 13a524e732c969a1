/** The constraint table of a DRAM device and how it is populated (dram/spec.h). */
module DramSpec {

  /** One row of the table: once the preceding command has been issued `window` times, `cmd` waits `val` cycles. */
  datatype TimingConsEntry = TimingConsEntry(cmd: nat, val: int, window: nat, sibling: bool)

  /** Entries by level, then by preceding command. */
  type TimingCons = seq<seq<seq<TimingConsEntry>>>

  datatype TimingConsInitializer = TimingConsInitializer(
    level: nat, preceding: seq<nat>, following: seq<nat>, latency: int, window: int, isSibling: bool)

  const CHANNEL: nat := 0
  const RANK: nat := 1
  const BANKGROUP: nat := 2
  const BANK: nat := 3
  const ROW: nat := 4
  const COLUMN: nat := 5
  const NUM_LEVELS: nat := 6

  /** An entry from the latest preceding command to the same node. */
  function Cons(level: nat, preceding: seq<nat>, following: seq<nat>, latency: int): TimingConsInitializer {
    TimingConsInitializer(level, preceding, following, latency, 1, false)
  }

  /** An entry from the latest preceding command to a sibling. */
  function SiblingCons(level: nat, preceding: seq<nat>, following: seq<nat>, latency: int): TimingConsInitializer {
    TimingConsInitializer(level, preceding, following, latency, 1, true)
  }

  /** The four-activate window of a rank. */
  function FourActivates(act: nat, latency: int): TimingConsInitializer {
    TimingConsInitializer(RANK, [act], [act], latency, 4, false)
  }

  predicate ValidInitializer(ts: TimingConsInitializer, numCmds: nat) {
    && ts.level < NUM_LEVELS
    && (forall p :: p in ts.preceding ==> p < numCmds)
    && (forall f :: f in ts.following ==> f < numCmds)
  }

  /** A negative window is replaced by 0 when the entry is built. */
  function ClampWindow(window: int): (w: nat)
    ensures window <= w && (w == window || w == 0)
  {
    if window < 0 then 0 else window
  }

  /** Initializer `ts` asks for entry `e` after command `p` at level `l`. */
  predicate Generates(ts: TimingConsInitializer, l: nat, p: nat, e: TimingConsEntry) {
    && ts.level == l
    && p in ts.preceding
    && e.cmd in ts.following
    && e == TimingConsEntry(e.cmd, ts.latency, ClampWindow(ts.window), ts.isSibling)
  }

  ghost predicate Requested(init: seq<TimingConsInitializer>, l: nat, p: nat, e: TimingConsEntry) {
    exists k :: 0 <= k < |init| && Generates(init[k], l, p, e)
  }

  predicate Dimensions(cons: TimingCons, numCmds: nat) {
    && |cons| == NUM_LEVELS
    && forall l :: 0 <= l < NUM_LEVELS ==> |cons[l]| == numCmds
  }

  /** The table holds an entry exactly when some initializer asks for it. */
  ghost predicate Populates(cons: TimingCons, numCmds: nat, init: seq<TimingConsInitializer>) {
    && Dimensions(cons, numCmds)
    && forall l: nat, p: nat, e ::
         l < NUM_LEVELS && p < numCmds ==> (e in cons[l][p] <==> Requested(init, l, p, e))
  }

  /** Non-sibling entries look up the history at `window - 1`, so their window must be positive. */
  ghost predicate WellFormed(cons: TimingCons, numCmds: nat) {
    && Dimensions(cons, numCmds)
    && forall l: nat, p: nat, e ::
         l < NUM_LEVELS && p < numCmds && e in cons[l][p] ==> e.cmd < numCmds && (!e.sibling ==> e.window >= 1)
  }

  method PopulateTimingCons(numCmds: nat, init: seq<TimingConsInitializer>) returns (cons: TimingCons)
    requires forall k :: 0 <= k < |init| ==> ValidInitializer(init[k], numCmds)
    ensures Populates(cons, numCmds, init)
    ensures (forall k :: 0 <= k < |init| ==> init[k].isSibling || init[k].window >= 1) ==> WellFormed(cons, numCmds)
  {
    cons := seq(NUM_LEVELS, _ => seq(numCmds, _ => []));
    for i := 0 to |init|
      invariant Populates(cons, numCmds, init[..i])
    {
      var ts := init[i];
      ghost var before := cons;
      for j := 0 to |ts.preceding|
        invariant Dimensions(cons, numCmds)
        invariant forall l: nat, p: nat, e :: l < NUM_LEVELS && p < numCmds ==>
                    (e in cons[l][p] <==>
                     e in before[l][p] || Generates(ts.(preceding := ts.preceding[..j]), l, p, e))
      {
        var p := ts.preceding[j];
        assert p in ts.preceding && ValidInitializer(ts, numCmds);
        ghost var middle := cons;
        for m := 0 to |ts.following|
          invariant Dimensions(cons, numCmds)
          invariant forall l: nat, q: nat, e :: l < NUM_LEVELS && q < numCmds ==>
                      (e in cons[l][q] <==>
                       e in middle[l][q] ||
                       Generates(ts.(preceding := [p], following := ts.following[..m]), l, q, e))
        {
          var e := TimingConsEntry(ts.following[m], ts.latency, ClampWindow(ts.window), ts.isSibling);
          cons := cons[ts.level := cons[ts.level][p := cons[ts.level][p] + [e]]];
          assert ts.following[..m + 1] == ts.following[..m] + [e.cmd];
        }
        assert ts.following[..|ts.following|] == ts.following;
        assert ts.preceding[..j + 1] == ts.preceding[..j] + [p];
      }
      assert ts.preceding[..|ts.preceding|] == ts.preceding;
      RequestedOneMore(init, i);
    }
    assert init[..|init|] == init;
  }

  lemma {:induction false} RequestedOneMore(init: seq<TimingConsInitializer>, i: nat)
    requires i < |init|
    ensures forall l: nat, p: nat, e ::
              Requested(init[..i + 1], l, p, e) <==> Requested(init[..i], l, p, e) || Generates(init[i], l, p, e)
  {
    forall l: nat, p: nat, e
      ensures Requested(init[..i + 1], l, p, e) <==> Requested(init[..i], l, p, e) || Generates(init[i], l, p, e)
    {
      if Requested(init[..i], l, p, e) {
        var k :| 0 <= k < i && Generates(init[..i][k], l, p, e);
        assert init[..i + 1][k] == init[..i][k];
      }
      if Generates(init[i], l, p, e) {
        assert init[..i + 1][i] == init[i];
      }
    }
  }
}
