/** Modified lines: over whole runs of a cache, what was written to a line is not lost. */
module DirtyLines {
  import opened CacheTags
  import opened MissCache

  /** What does not change in a run. */
  datatype Cache = Cache(g: Geometry, policy: WritePolicy, writeAllocate: bool)

  /** What happens to a cache: an access is accepted, with the outcome of its lookup; the oldest queued request is sent
      to memory; a read is answered; an access is handed back. */
  datatype Step =
    | Access(mf: MemFetch, time: nat, probed: RequestStatus, idx: nat)
    | Send
    | Fill(mf: MemFetch, time: nat)
    | Answer

  ghost predicate Legal(c: Cache, s: State, e: Step)
    requires c.g.Valid()
  {
    match e
    case Access(mf, _, probed, idx) =>
      && mf.Request? && probed != ReservationFail && |s.lines| == c.g.nset * c.g.assoc
      && Probed(c.g, s.lines, c.g.BlockAddr(mf.Addr()), probed, idx)
    case Send => s.queue != []
    case Fill(mf, _) =>
      && mf in s.pending && s.pending[mf].index < |s.lines| && s.lines[s.pending[mf].index].status == Reserved
      && s.pending[mf].block in s.data
    case Answer => s.responses != [] && s.responses[0] in s.data && s.data[s.responses[0]].list != []
  }

  /** The state after a step, as the operations of the cache leave it. */
  ghost function Next(c: Cache, s: State, e: Step): State
    requires c.g.Valid() && Legal(c, s, e)
  {
    match e
    case Access(mf, time, probed, idx) =>
      AfterAccess(c.g, c.policy, c.writeAllocate, s, c.g.BlockAddr(mf.Addr()), mf, time, probed, idx)
    case Send => s.(queue := s.queue[1..])
    case Fill(mf, time) =>
      var p := s.pending[mf];
      AfterFill(s, mf, s.lines[p.index].(
        fillTime := time, status := if s.data[p.block].hasAtomic then Modified else Resident))
    case Answer => AfterAnswer(s)
  }

  // ----- what can be seen of a block from one state to the next -----

  /** Whether a line holds the block modified, as a number. */
  function DirtyAt(line: Line, b: nat): nat {
    if line.status == Modified && line.blockAddr == b then 1 else 0
  }

  /** The number of lines that hold the block modified. */
  ghost function Dirty(lines: seq<Line>, b: nat): nat {
    if lines == [] then 0 else Dirty(lines[..|lines| - 1], b) + DirtyAt(lines[|lines| - 1], b)
  }

  /** The number of lines that hold the block modified now and did not before. */
  ghost function Marks(lines: seq<Line>, lines': seq<Line>, b: nat): nat
    requires |lines| == |lines'|
  {
    if lines == [] then 0
    else
      var n := |lines| - 1;
      Marks(lines[..n], lines'[..n], b) + if DirtyAt(lines'[n], b) > DirtyAt(lines[n], b) then 1 else 0
  }

  ghost function Times(s: seq<nat>, b: nat): nat {
    if s == [] then 0 else Times(s[..|s| - 1], b) + if s[|s| - 1] == b then 1 else 0
  }

  lemma {:induction false} TimesAppend(s: seq<nat>, t: seq<nat>, b: nat)
    ensures Times(s + t, b) == Times(s, b) + Times(t, b)
  {
    if t == [] {
      assert s + t == s;
    } else {
      TimesAppend(s, t[..|t| - 1], b);
      assert (s + t)[..|s + t| - 1] == s + t[..|t| - 1];
    }
  }

  lemma TimesInOne(x: nat, b: nat)
    ensures Times([x], b) == if x == b then 1 else 0
  {
    assert [x][..0] == [];
  }

  lemma {:induction false} DirtyUpdate(lines: seq<Line>, i: nat, line: Line, b: nat)
    requires i < |lines|
    ensures Dirty(lines[i := line], b) + DirtyAt(lines[i], b) == Dirty(lines, b) + DirtyAt(line, b)
  {
    var n, lines' := |lines| - 1, lines[i := line];
    if i < n {
      DirtyUpdate(lines[..n], i, line, b);
      assert lines'[..n] == lines[..n][i := line];
    } else {
      assert lines'[..n] == lines[..n];
    }
  }

  lemma {:induction false} NothingMarks(lines: seq<Line>, b: nat)
    ensures Marks(lines, lines, b) == 0
  {
    if lines != [] {
      NothingMarks(lines[..|lines| - 1], b);
    }
  }

  lemma {:induction false} MarksUpdate(lines: seq<Line>, i: nat, line: Line, b: nat)
    requires i < |lines|
    ensures Marks(lines, lines[i := line], b) == if DirtyAt(line, b) > DirtyAt(lines[i], b) then 1 else 0
  {
    var n, lines' := |lines| - 1, lines[i := line];
    if i < n {
      MarksUpdate(lines[..n], i, line, b);
      assert lines'[..n] == lines[..n][i := line];
    } else {
      assert lines'[..n] == lines[..n];
      NothingMarks(lines[..n], b);
    }
  }

  // ----- conservation -----

  /** Whether a step loses the block without writing it back: a write evicts its modified line while it goes to memory
      itself, or a miss replaces that line when writes have gone through. */
  ghost predicate Loses(c: Cache, s: State, e: Step, b: nat)
    requires c.g.Valid() && Legal(c, s, e)
  {
    && e.Access? && DirtyAt(s.lines[e.idx], b) == 1
    && (|| (e.probed == Hit && e.mf.isWrite
            && (c.policy == WriteEvict || (c.policy == LocalBackGlobalEvict && e.mf.isGlobal)))
        || (e.probed == Miss && (e.mf.isWrite ==> c.writeAllocate) && c.policy == WriteThrough))
  }

  /** How often a step sends the block to memory to be written back. */
  ghost function WrittenOut(s: State, e: Step, b: nat): nat {
    if e.Send? && s.queue != [] && s.queue[0] == WriteBack(b) then 1 else 0
  }

  /** How often the block still has to be written to memory: from modified lines and by queued write-backs. */
  ghost function Unwritten(s: State, b: nat): nat {
    Dirty(s.lines, b) + Times(WriteBacks(s.queue), b)
  }

  ghost predicate Conserves(c: Cache, s: State, e: Step, b: nat)
    requires c.g.Valid() && Legal(c, s, e)
  {
    var s' := Next(c, s, e);
    && |s'.lines| == |s.lines|
    && Unwritten(s, b) + Marks(s.lines, s'.lines, b)
       == Unwritten(s', b) + WrittenOut(s, e, b) + if Loses(c, s, e, b) then 1 else 0
  }

  /** The line that an access touches, or its victim, is accounted for. */
  lemma LineConserves(c: Cache, s: State, e: Step, b: nat)
    requires c.g.Valid() && Legal(c, s, e) && e.Access?
    ensures var s' := Next(c, s, e);
      && |s'.lines| == |s.lines| && e.idx < |s.lines| && s'.lines == s.lines[e.idx := s'.lines[e.idx]]
      && var line, line' := s.lines[e.idx], s'.lines[e.idx];
         DirtyAt(line, b) + (if DirtyAt(line', b) > DirtyAt(line, b) then 1 else 0) == DirtyAt(line', b)
           + (if Replaced(s.lines, s'.lines, e.idx) && c.policy != WriteThrough && line.blockAddr == b then 1 else 0)
           + if Loses(c, s, e, b) then 1 else 0
  {
  }

  lemma AccessConserves(c: Cache, s: State, e: Step, b: nat)
    requires c.g.Valid() && Legal(c, s, e) && e.Access?
    ensures Conserves(c, s, e, b)
  {
    var s', idx := Next(c, s, e), e.idx;
    LineConserves(c, s, e, b);
    DirtyUpdate(s.lines, idx, s'.lines[idx], b);
    MarksUpdate(s.lines, idx, s'.lines[idx], b);
    var back := if Replaced(s.lines, s'.lines, idx) && c.policy != WriteThrough then [s.lines[idx].blockAddr] else [];
    assert WriteBacks(s'.queue) == WriteBacks(s.queue) + back by {
      var block := c.g.BlockAddr(e.mf.Addr());
      AccessWritesBackVictim(c.g, c.policy, c.writeAllocate, s, block, e.mf, e.time, e.probed, idx);
    }
    TimesAppend(WriteBacks(s.queue), back, b);
    TimesInOne(s.lines[idx].blockAddr, b);
  }

  lemma SendConserves(c: Cache, s: State, b: nat)
    requires c.g.Valid() && Legal(c, s, Send)
    ensures Conserves(c, s, Send, b)
  {
    var first, rest := s.queue[0], s.queue[1..];
    NothingMarks(s.lines, b);
    assert s.queue == [first] + rest;
    WriteBacksAppend([first], rest);
    WriteBacksOfOne(first);
    TimesAppend(WriteBacks([first]), WriteBacks(rest), b);
    if first.WriteBack? {
      TimesInOne(first.block, b);
    }
  }

  lemma FillConserves(c: Cache, s: State, e: Step, b: nat)
    requires c.g.Valid() && Legal(c, s, e) && e.Fill?
    ensures Conserves(c, s, e, b)
  {
    var s', i := Next(c, s, e), s.pending[e.mf].index;
    DirtyUpdate(s.lines, i, s'.lines[i], b);
    MarksUpdate(s.lines, i, s'.lines[i], b);
  }

  /** In every step: what had to be written to memory and what becomes modified is what has to be written afterwards, is
      sent to be written back, or is lost as said. */
  lemma StepConserves(c: Cache, s: State, e: Step, b: nat)
    requires c.g.Valid() && Legal(c, s, e)
    ensures Conserves(c, s, e, b)
  {
    match e {
      case Access(_, _, _, _) => AccessConserves(c, s, e, b);
      case Send => SendConserves(c, s, b);
      case Fill(_, _) => FillConserves(c, s, e, b);
      case Answer => NothingMarks(s.lines, b);
    }
  }

  // ----- runs -----

  /** What can be seen of a block in a run: the last state, and how often the block has become modified, has been sent
      to be written back, and has been lost. */
  datatype Summary = Summary(state: State, marked: nat, out: nat, lost: nat)

  /** A run; a step that is not legal does not happen. */
  ghost function Run(c: Cache, start: State, steps: seq<Step>, b: nat): Summary
    requires c.g.Valid()
  {
    if steps == [] then Summary(start, 0, 0, 0)
    else
      var r, e := Run(c, start, steps[..|steps| - 1], b), steps[|steps| - 1];
      if !Legal(c, r.state, e) then r
      else
        StepConserves(c, r.state, e, b);
        var s' := Next(c, r.state, e);
        Summary(s', r.marked + Marks(r.state.lines, s'.lines, b), r.out + WrittenOut(r.state, e, b),
                r.lost + if Loses(c, r.state, e, b) then 1 else 0)
  }

  /** Nothing that was written to a line is lost. In every run of a cache that writes back, each block has been made
      modified exactly as often as it has been sent to be written back, is queued for that, or is in a modified line,
      but for what there was at the start; under the other policies what is missing is what `Loses` says. */
  lemma {:induction false} NothingIsLost(c: Cache, start: State, steps: seq<Step>, b: nat)
    requires c.g.Valid()
    ensures var r := Run(c, start, steps, b);
      && Unwritten(start, b) + r.marked
           == Dirty(r.state.lines, b) + Times(WriteBacks(r.state.queue), b) + r.out + r.lost
      && (c.policy == WriteBackPolicy ==> r.lost == 0)
  {
    if steps != [] {
      var before, e := steps[..|steps| - 1], steps[|steps| - 1];
      NothingIsLost(c, start, before, b);
      var r := Run(c, start, before, b);
      if Legal(c, r.state, e) {
        StepConserves(c, r.state, e, b);
      }
    }
  }
}
