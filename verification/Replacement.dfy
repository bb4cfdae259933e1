/** Which line a set gives up: over whole runs of a tag array the least recently used one, or the one filled first. */
module Replacement {
  import opened CacheTags

  /** A successful access to a block, and whether it was a miss that allocated a line. */
  datatype Use = Use(block: nat, time: nat, missed: bool)

  /** What happens to a tag array: an access to a block address with the outcome of its lookup, or a line that changes
      its status after a fill or a write. */
  datatype Step = Access(addr: nat, time: nat, status: RequestStatus, idx: nat)
                | Change(idx: nat, fillTime: nat, lineStatus: LineStatus)

  /** The time of the last use of a block, and of the last miss on it; the block has to be used at all. */
  ghost function LastUse(log: seq<Use>, b: nat): nat {
    if log == [] then 0
    else if log[|log| - 1].block == b then log[|log| - 1].time
    else LastUse(log[..|log| - 1], b)
  }

  ghost function LastMiss(log: seq<Use>, b: nat): nat {
    if log == [] then 0
    else if log[|log| - 1].block == b && log[|log| - 1].missed then log[|log| - 1].time
    else LastMiss(log[..|log| - 1], b)
  }

  ghost predicate Legal(g: Geometry, lines: seq<Line>, e: Step)
    requires g.Valid() && |lines| == g.nset * g.assoc
  {
    match e
    case Access(addr, time, status, idx) =>
      status != ReservationFail && g.BlockAddr(addr) == addr && Probed(g, lines, addr, status, idx)
    case Change(idx, _, _) => idx < |lines| && lines[idx].status != Invalid
  }

  ghost function Next(g: Geometry, lines: seq<Line>, e: Step): (r: seq<Line>)
    requires g.Valid() && |lines| == g.nset * g.assoc && Legal(g, lines, e)
    ensures |r| == |lines|
  {
    match e
    case Access(addr, time, status, idx) => Accessed(g, lines, addr, time, status, idx)
    case Change(idx, fillTime, status) => lines[idx := lines[idx].(fillTime := fillTime, status := status)]
  }

  function Logged(g: Geometry, log: seq<Use>, e: Step): seq<Use>
    requires 0 < g.lineSize
  {
    if e.Access? then log + [Use(g.BlockAddr(e.addr), e.time, e.status == Miss)] else log
  }

  /** A line in use is in the set of its block, no other line there holds the block, and its time stamps are those of
      the last use of the block and of the last miss on it. */
  ghost predicate Stamped(g: Geometry, lines: seq<Line>, log: seq<Use>)
    requires g.Valid() && |lines| == g.nset * g.assoc
  {
    && (forall i :: 0 <= i < |lines| && lines[i].status != Invalid ==>
          && g.InSet(lines[i].tag, i) && g.BlockAddr(lines[i].tag) == lines[i].tag
          && lines[i].lastAccessTime == LastUse(log, lines[i].tag) && lines[i].allocTime == LastMiss(log, lines[i].tag))
    && forall i, j :: 0 <= i < j < |lines| && lines[i].status != Invalid && lines[j].status != Invalid ==>
         lines[i].tag != lines[j].tag
  }

  lemma UsedLast(log: seq<Use>, u: Use, b: nat)
    ensures LastUse(log + [u], b) == if u.block == b then u.time else LastUse(log, b)
    ensures LastMiss(log + [u], b) == if u.block == b && u.missed then u.time else LastMiss(log, b)
  {
    assert (log + [u])[..|log|] == log;
  }

  /** No line but the one accessed holds its block. */
  lemma OthersHoldOtherBlocks(g: Geometry, lines: seq<Line>, log: seq<Use>, e: Step, i: nat)
    requires g.Valid() && |lines| == g.nset * g.assoc && Stamped(g, lines, log) && Legal(g, lines, e) && e.Access?
    requires i < |lines| && i != e.idx && lines[i].status != Invalid
    ensures lines[i].tag != e.addr
  {
    assert lines[i].tag == e.addr ==> g.InSet(e.addr, i) && Matches(lines[i], e.addr);
  }
  lemma AccessKeepsStamps(g: Geometry, lines: seq<Line>, log: seq<Use>, e: Step)
    requires g.Valid() && |lines| == g.nset * g.assoc && Stamped(g, lines, log) && Legal(g, lines, e) && e.Access?
    ensures Stamped(g, Next(g, lines, e), Logged(g, log, e))
  {
    var lines', u := Next(g, lines, e), Use(e.addr, e.time, e.status == Miss);
    forall i | 0 <= i < |lines| && lines'[i].status != Invalid
      ensures g.InSet(lines'[i].tag, i) && g.BlockAddr(lines'[i].tag) == lines'[i].tag
      ensures lines'[i].lastAccessTime == LastUse(log + [u], lines'[i].tag)
      ensures lines'[i].allocTime == LastMiss(log + [u], lines'[i].tag)
      ensures i != e.idx ==> lines'[i].tag != e.addr
    {
      UsedLast(log, u, lines'[i].tag);
      if i != e.idx {
        OthersHoldOtherBlocks(g, lines, log, e, i);
      }
    }
  }

  lemma StepKeepsStamps(g: Geometry, lines: seq<Line>, log: seq<Use>, e: Step)
    requires g.Valid() && |lines| == g.nset * g.assoc && Stamped(g, lines, log) && Legal(g, lines, e)
    ensures Stamped(g, Next(g, lines, e), Logged(g, log, e))
  {
    if e.Access? {
      AccessKeepsStamps(g, lines, log, e);
    }
  }

  // ----- runs -----

  datatype History = History(lines: seq<Line>, log: seq<Use>)

  /** A run from an empty tag array; a step that is not legal does not happen. */
  ghost function Run(g: Geometry, steps: seq<Step>): (h: History)
    requires g.Valid()
    ensures |h.lines| == g.nset * g.assoc
  {
    if steps == [] then History(seq(g.nset * g.assoc, _ => Line(0, 0, 0, 0, 0, Invalid)), [])
    else
      var h, e := Run(g, steps[..|steps| - 1]), steps[|steps| - 1];
      if Legal(g, h.lines, e) then History(Next(g, h.lines, e), Logged(g, h.log, e)) else h
  }

  lemma {:induction false} RunKeepsStamps(g: Geometry, steps: seq<Step>)
    requires g.Valid()
    ensures Stamped(g, Run(g, steps).lines, Run(g, steps).log)
  {
    if steps != [] {
      var before, e := steps[..|steps| - 1], steps[|steps| - 1];
      RunKeepsStamps(g, before);
      var h := Run(g, before);
      if Legal(g, h.lines, e) {
        StepKeepsStamps(g, h.lines, h.log, e);
      }
    }
  }

  /** In every run: when a miss gives up a line that is in use, no line of the set is free, and every other line of the
      set that does not wait for a fill holds a block that was used no earlier, under LRU, or that last missed no
      earlier, under FIFO. */
  lemma VictimIsLeastRecent(g: Geometry, steps: seq<Step>, addr: nat, v: nat, j: nat)
    requires g.Valid() && g.BlockAddr(addr) == addr && Probed(g, Run(g, steps).lines, addr, Miss, v)
    requires g.InSet(addr, j) && Run(g, steps).lines[v].status != Invalid
    ensures var h := Run(g, steps);
      && h.lines[j].status != Invalid && h.lines[v].status != Reserved
      && (h.lines[j].status != Reserved ==>
            if g.policy == LRU then LastUse(h.log, h.lines[v].tag) <= LastUse(h.log, h.lines[j].tag)
            else LastMiss(h.log, h.lines[v].tag) <= LastMiss(h.log, h.lines[j].tag))
  {
    RunKeepsStamps(g, steps);
  }
}
