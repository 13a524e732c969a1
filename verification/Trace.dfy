/** The text traces that the scheduler and both trace splitters read, one record per line. */
module Trace {
  import opened Wrappers

  /** One line, split at white space; `arity` is the number of its fields. */
  datatype TraceLine = TraceLine(arity: nat, op: string, addr: int, addrVec: string, timestamp: int, req: int)
  {
    predicate Kept() { 3 <= arity }
    predicate IsWrite() { op == "K" || op == "V" }
    predicate IsRead() { op == "RK" || op == "RV" }
    predicate StartsWithR() { op != "" && op[0] == 'R' }
    function Req(): int { if arity > 4 then req else 0 }
    function Time(default: int): int { if arity > 3 then timestamp else default }
  }

  const LAYOUT_LINES: nat := 5000

  predicate SharedK(addr: int) { 0x1000_0000 <= addr < 0x2000_0000 }
  predicate SharedV(addr: int) { 0x4000_0000 <= addr < 0x5000_0000 }
  predicate SharedAddress(addr: int) { SharedK(addr) || SharedV(addr) }

  /** The trace uses the prefix-sharing layout: one of its first lines has a high address. */
  ghost predicate PrefixSharing(lines: seq<TraceLine>) {
    exists i :: 0 <= i < |lines| && i < LAYOUT_LINES && lines[i].arity >= 2 && lines[i].addr >= 0x4000_0000
  }

  /**
   * The layout is decided by the first 5000 lines, any one of which is enough: one with an address, at
   * or above the upper range.
   */
  lemma {:induction false} LayoutDecided(lines: seq<TraceLine>, more: seq<TraceLine>, l: TraceLine)
    ensures PrefixSharing(lines + more) ==> PrefixSharing(lines) || (|lines| < 5000 && PrefixSharing(more))
    ensures PrefixSharing(lines) ==> PrefixSharing(lines + more)
    ensures PrefixSharing(lines + [l]) <==>
            PrefixSharing(lines) || (|lines| < 5000 && l.arity >= 2 && l.addr >= 0x4000_0000)
  {
    var both := lines + more;
    assert forall i :: 0 <= i < |lines| ==> both[i] == lines[i];
    assert forall i :: 0 <= i < |more| ==> both[|lines| + i] == more[i];
    if i :| 0 <= i < |both| && i < LAYOUT_LINES && both[i].arity >= 2 && both[i].addr >= 0x4000_0000 {
      assert i >= |lines| ==> more[i - |lines|] == both[i];
    }
    var next := lines + [l];
    assert forall i :: 0 <= i < |lines| ==> next[i] == lines[i];
    assert next[|lines|] == l;
  }

  /** The layout a trace is read by: the one remembered from an earlier trace, else its own. */
  ghost predicate LayoutOf(layout: Option<bool>, lines: seq<TraceLine>) {
    if layout.Some? then layout.value else PrefixSharing(lines)
  }

  method DetectLayout(lines: seq<TraceLine>) returns (found: bool)
    ensures found <==> PrefixSharing(lines)
  {
    found := false;
    var i := 0;
    while i < |lines| && i < LAYOUT_LINES && !found
      invariant i <= |lines|
      invariant found ==> PrefixSharing(lines)
      invariant !found ==> forall j :: 0 <= j < i ==> !(lines[j].arity >= 2 && lines[j].addr >= 0x4000_0000)
    {
      found := lines[i].arity >= 2 && lines[i].addr >= 0x4000_0000;
      i := i + 1;
    }
  }

  function KeptCount(lines: seq<TraceLine>): nat {
    if lines == [] then 0 else KeptCount(Init(lines)) + if Last(lines).Kept() then 1 else 0
  }
}
