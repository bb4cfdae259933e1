/** The caches with miss-status holding registers: lines, registers, miss queue and outstanding reads stay
    consistent while misses merge and fills arrive later. Lines are allocated on a miss. */
module MissCache {
  import opened CacheTags

  /** A request at the cache, the read it sends for a write that allocates, or the write-back of a line. */
  datatype MemFetch =
    | Request(id: nat, addr: nat, isWrite: bool, isAtomic: bool, isGlobal: bool)
    | AllocateRead(of: MemFetch)
    | WriteBack(block: nat)
  {
    function Addr(): nat {
      match this
      case Request(_, a, _, _, _) => a
      case AllocateRead(mf) => mf.Addr()
      case WriteBack(b) => b
    }

    predicate IsAtomic() {
      Request? && isAtomic
    }
  }

  /** The accesses waiting for one block, oldest first. */
  datatype MshrEntry = MshrEntry(list: seq<MemFetch>, hasAtomic: bool)

  /** What is remembered about a read sent to memory. */
  datatype Pending = Pending(block: nat, index: nat)

  // ----- consistency -----

  /** Lines in use are in the set of their tag, and no two of them have the same tag. */
  ghost predicate LinesOk(g: Geometry, lines: seq<Line>)
    requires g.Valid()
  {
    && |lines| == g.nset * g.assoc
    && (forall i :: 0 <= i < |lines| && lines[i].status != Invalid ==>
          g.InSet(lines[i].tag, i) && g.BlockAddr(lines[i].tag) == lines[i].tag == lines[i].blockAddr)
    && forall i, j :: 0 <= i < j < |lines| && lines[i].status != Invalid && lines[j].status != Invalid ==>
         lines[i].tag != lines[j].tag
  }

  ghost predicate TableOk(g: Geometry, data: map<nat, MshrEntry>, responses: seq<nat>, numEntries: nat, maxMerged: nat)
    requires 0 < g.lineSize
  {
    && |data| <= numEntries
    && (forall b :: b in data ==> 0 < |data[b].list| <= maxMerged)
    && (forall b, i :: b in data && 0 <= i < |data[b].list| ==> g.BlockAddr(data[b].list[i].Addr()) == b)
    && (forall b :: b in responses ==> b in data)
    && forall i, j :: 0 <= i < j < |responses| ==> responses[i] != responses[j]
  }

  /** Every register is either waiting for exactly one read or being answered; each read has its line. */
  ghost predicate ReadsOk(lines: seq<Line>, data: map<nat, MshrEntry>, responses: seq<nat>,
                          pending: map<MemFetch, Pending>)
  {
    && (forall mf :: mf in pending ==>
          var p := pending[mf];
          && p.block in data && p.block !in responses
          && p.index < |lines| && lines[p.index].status == Reserved && lines[p.index].tag == p.block)
    && (forall mf, mf' :: mf in pending && mf' in pending && pending[mf].block == pending[mf'].block ==> mf == mf')
    && forall b :: b in data && b !in responses ==> exists mf :: mf in pending && pending[mf].block == b
  }

  ghost predicate AwaitsRead(pending: map<MemFetch, Pending>, i: nat) {
    exists mf :: mf in pending && pending[mf].index == i
  }

  /** The stranded lines are exactly those that are reserved without a read that would fill them. */
  ghost predicate StrandedOk(lines: seq<Line>, pending: map<MemFetch, Pending>, stranded: set<nat>) {
    forall i :: 0 <= i < |lines| ==> (i in stranded <==> lines[i].status == Reserved && !AwaitsRead(pending, i))
  }

  ghost predicate AtomicWaits(e: MshrEntry) {
    exists i :: 0 <= i < |e.list| && e.list[i].IsAtomic()
  }

  /** A register knows of the atomics waiting in it, and until it is being answered of no others. */
  ghost predicate AtomicsOk(data: map<nat, MshrEntry>, responses: seq<nat>) {
    forall b :: b in data ==>
      && (AtomicWaits(data[b]) ==> data[b].hasAtomic)
      && (data[b].hasAtomic && b !in responses ==> AtomicWaits(data[b]))
  }

  function OfBlock(g: Geometry, mfs: seq<MemFetch>, b: nat): seq<MemFetch>
    requires 0 < g.lineSize
  {
    if mfs == [] then []
    else
      var last := mfs[|mfs| - 1];
      OfBlock(g, mfs[..|mfs| - 1], b) + if g.BlockAddr(last.Addr()) == b then [last] else []
  }

  function Waiting(data: map<nat, MshrEntry>, b: nat): seq<MemFetch> {
    if b in data then data[b].list else []
  }

  /** Per block, the accepted misses are those returned, in the same order, followed by those still waiting. */
  ghost predicate ReturnedInOrder(g: Geometry, accepted: seq<MemFetch>, returned: seq<MemFetch>,
                                  data: map<nat, MshrEntry>)
    requires 0 < g.lineSize
  {
    forall b :: OfBlock(g, accepted, b) == OfBlock(g, returned, b) + Waiting(data, b)
  }

  // ----- the moves -----

  /** Nobody waits in an evicted line: it is not reserved. */
  lemma MissKeepsLines(g: Geometry, lines: seq<Line>, block: nat, time: nat, status: RequestStatus, idx: nat)
    requires g.Valid() && LinesOk(g, lines) && g.BlockAddr(block) == block
    requires status in {Miss, HitReserved} && Probed(g, lines, block, status, idx)
    ensures LinesOk(g, Accessed(g, lines, block, time, status, idx))
  {
    if status == Miss {
      forall i | 0 <= i < |lines| && i != idx && lines[i].status != Invalid
        ensures lines[i].tag != block
      {
        assert g.InSet(lines[i].tag, i);
      }
    }
  }

  function Added(data: map<nat, MshrEntry>, b: nat, mf: MemFetch): map<nat, MshrEntry> {
    var e := if b in data then data[b] else MshrEntry([], false);
    data[b := MshrEntry(e.list + [mf], e.hasAtomic || mf.IsAtomic())]
  }

  lemma AddKeepsAtomics(data: map<nat, MshrEntry>, responses: seq<nat>, block: nat, mf: MemFetch)
    requires AtomicsOk(data, responses)
    ensures AtomicsOk(Added(data, block, mf), responses)
  {
    var e := if block in data then data[block] else MshrEntry([], false);
    var e' := Added(data, block, mf)[block];
    assert e'.list == e.list + [mf];
    if AtomicWaits(e) {
      var i :| 0 <= i < |e.list| && e.list[i].IsAtomic();
      assert e'.list[i].IsAtomic();
    }
    if mf.IsAtomic() {
      assert e'.list[|e.list|].IsAtomic();
    }
  }

  lemma AddedSize(data: map<nat, MshrEntry>, b: nat, mf: MemFetch)
    ensures |Added(data, b, mf)| == if b in data then |data| else |data| + 1
  {
    var data' := Added(data, b, mf);
    assert data'.Keys == data.Keys + {b};
    assert b in data ==> data'.Keys == data.Keys;
    assert |data'| == |data'.Keys| && |data| == |data.Keys|;
  }

  lemma AddKeepsTable(g: Geometry, data: map<nat, MshrEntry>, responses: seq<nat>, numEntries: nat, maxMerged: nat,
                      mf: MemFetch)
    requires 0 < g.lineSize && TableOk(g, data, responses, numEntries, maxMerged) && 0 < maxMerged
    requires var b := g.BlockAddr(mf.Addr()); if b in data then |data[b].list| < maxMerged else |data| < numEntries
    ensures TableOk(g, Added(data, g.BlockAddr(mf.Addr()), mf), responses, numEntries, maxMerged)
  {
    AddedSize(data, g.BlockAddr(mf.Addr()), mf);
  }

  lemma {:induction false} OfBlockAppend(g: Geometry, mfs: seq<MemFetch>, mf: MemFetch, b: nat)
    requires 0 < g.lineSize
    ensures OfBlock(g, mfs + [mf], b) == OfBlock(g, mfs, b) + if g.BlockAddr(mf.Addr()) == b then [mf] else []
  {
    assert (mfs + [mf])[..|mfs|] == mfs;
  }

  lemma AddKeepsOrder(g: Geometry, accepted: seq<MemFetch>, returned: seq<MemFetch>, data: map<nat, MshrEntry>,
                      mf: MemFetch)
    requires 0 < g.lineSize && ReturnedInOrder(g, accepted, returned, data)
    ensures ReturnedInOrder(g, accepted + [mf], returned, Added(data, g.BlockAddr(mf.Addr()), mf))
  {
    var data' := Added(data, g.BlockAddr(mf.Addr()), mf);
    forall b
      ensures OfBlock(g, accepted + [mf], b) == OfBlock(g, returned, b) + Waiting(data', b)
    {
      OfBlockAppend(g, accepted, mf, b);
      assert OfBlock(g, accepted, b) == OfBlock(g, returned, b) + Waiting(data, b);
    }
  }

  function Answered(data: map<nat, MshrEntry>, b: nat): map<nat, MshrEntry>
    requires b in data && data[b].list != []
  {
    if |data[b].list| == 1 then data - {b} else data[b := data[b].(list := data[b].list[1..])]
  }

  lemma AnswerKeepsOrder(g: Geometry, accepted: seq<MemFetch>, returned: seq<MemFetch>, data: map<nat, MshrEntry>,
                         block: nat)
    requires 0 < g.lineSize && ReturnedInOrder(g, accepted, returned, data) && block in data && data[block].list != []
    requires g.BlockAddr(data[block].list[0].Addr()) == block
    ensures ReturnedInOrder(g, accepted, returned + [data[block].list[0]], Answered(data, block))
  {
    forall b
      ensures OfBlock(g, accepted, b)
           == OfBlock(g, returned + [data[block].list[0]], b) + Waiting(Answered(data, block), b)
    {
      OfBlockAppend(g, returned, data[block].list[0], b);
      AnswerTakesOldest(OfBlock(g, returned, b), data, block, b);
    }
  }

  /** The oldest access of the answered block moves from the register to the returned ones. */
  lemma AnswerTakesOldest(before: seq<MemFetch>, data: map<nat, MshrEntry>, block: nat, b: nat)
    requires block in data && data[block].list != []
    ensures before + Waiting(data, b)
         == (before + if b == block then [data[block].list[0]] else []) + Waiting(Answered(data, block), b)
  {
    if b == block {
      assert data[b].list == [data[b].list[0]] + data[b].list[1..];
      assert Waiting(Answered(data, block), b) == data[b].list[1..];
    } else {
      assert Waiting(Answered(data, block), b) == Waiting(data, b);
    }
  }

  lemma AnswerKeepsTable(g: Geometry, data: map<nat, MshrEntry>, responses: seq<nat>, numEntries: nat, maxMerged: nat)
    requires 0 < g.lineSize && TableOk(g, data, responses, numEntries, maxMerged) && responses != []
    ensures var b := responses[0];
      b in data && data[b].list != []
      && TableOk(g, Answered(data, b), if |data[b].list| == 1 then responses[1..] else responses, numEntries, maxMerged)
  {
    var b := responses[0];
    assert b in responses;
    var data' := Answered(data, b);
    if |data[b].list| == 1 {
      assert data'.Keys == data.Keys - {b};
      forall c | c in responses[1..]
        ensures c in data'
      {
        var j :| 0 <= j < |responses[1..]| && responses[1..][j] == c;
        assert responses[j + 1] == c;
      }
    } else {
      assert data'.Keys == data.Keys;
    }
    assert |data'| == |data'.Keys| && |data| == |data.Keys|;
  }

  /** The registers are at least as many as the answers in progress. */
  lemma {:induction false} ResponsesFit(data: set<nat>, responses: seq<nat>)
    requires forall b :: b in responses ==> b in data
    requires forall i, j :: 0 <= i < j < |responses| ==> responses[i] != responses[j]
    ensures |responses| <= |data|
  {
    if responses != [] {
      var n := |responses| - 1;
      assert responses[n] in responses;
      forall b | b in responses[..n]
        ensures b in data - {responses[n]}
      {
        var i :| 0 <= i < n && responses[i] == b;
      }
      ResponsesFit(data - {responses[n]}, responses[..n]);
    }
  }

  lemma AnswerKeepsAtomics(data: map<nat, MshrEntry>, responses: seq<nat>)
    requires AtomicsOk(data, responses) && responses != [] && responses[0] in data && data[responses[0]].list != []
    ensures var b := responses[0];
      AtomicsOk(Answered(data, b), if |data[b].list| == 1 then responses[1..] else responses)
  {
    var b := responses[0];
    var data', responses' := Answered(data, b), if |data[b].list| == 1 then responses[1..] else responses;
    forall c | c in data'
      ensures AtomicWaits(data'[c]) ==> data'[c].hasAtomic
      ensures data'[c].hasAtomic && c !in responses' ==> AtomicWaits(data'[c])
    {
      if c == b {
        assert b in responses';
        if i :| 0 <= i < |data'[b].list| && data'[b].list[i].IsAtomic() {
          assert data[b].list[i + 1].IsAtomic();
        }
      } else {
        assert c in responses ==> c in responses' by {
          if c in responses && |data[b].list| == 1 {
            var j :| 0 <= j < |responses| && responses[j] == c;
            assert responses'[j - 1] == c;
          }
        }
      }
    }
  }

  /** Sending a read for a block without a register. */
  lemma SendKeepsReads(lines: seq<Line>, data: map<nat, MshrEntry>, responses: seq<nat>,
                       pending: map<MemFetch, Pending>, lines': seq<Line>, block: nat, idx: nat, mf: MemFetch)
    requires ReadsOk(lines, data, responses, pending) && block !in data && mf !in pending && block !in responses
    requires |lines'| == |lines| && idx < |lines| && lines'[idx].status == Reserved && lines'[idx].tag == block
    requires forall i :: 0 <= i < |lines| && i != idx ==> lines'[i] == lines[i]
    requires lines[idx].status == Reserved ==> lines[idx].tag == block
    ensures ReadsOk(lines', Added(data, block, mf), responses, pending[mf := Pending(block, idx)])
  {
    var data', pending' := Added(data, block, mf), pending[mf := Pending(block, idx)];
    forall b | b in data' && b !in responses
      ensures exists m :: m in pending' && pending'[m].block == b
    {
      if b == block {
        assert pending'[mf].block == b;
      } else {
        var m :| m in pending && pending[m].block == b;
        assert pending'[m].block == b;
      }
    }
  }

  /** Merging into a register, whatever happens to lines that are not reserved. */
  lemma MergeKeepsReads(lines: seq<Line>, data: map<nat, MshrEntry>, responses: seq<nat>,
                        pending: map<MemFetch, Pending>, lines': seq<Line>, block: nat, mf: MemFetch)
    requires ReadsOk(lines, data, responses, pending) && block in data
    requires |lines'| == |lines|
    requires forall i :: 0 <= i < |lines| && lines[i].status == Reserved ==>
      lines'[i].status == Reserved && lines'[i].tag == lines[i].tag
    ensures ReadsOk(lines', Added(data, block, mf), responses, pending)
  {
  }

  /** A fill moves the register from waiting for its read to being answered. */
  lemma FillKeepsReads(lines: seq<Line>, data: map<nat, MshrEntry>, responses: seq<nat>,
                       pending: map<MemFetch, Pending>, lines': seq<Line>, mf: MemFetch)
    requires ReadsOk(lines, data, responses, pending) && mf in pending
    requires |lines'| == |lines| && forall i :: 0 <= i < |lines| && i != pending[mf].index ==> lines'[i] == lines[i]
    ensures ReadsOk(lines', data, responses + [pending[mf].block], pending - {mf})
  {
    var pending', responses' := pending - {mf}, responses + [pending[mf].block];
    forall b | b in data && b !in responses'
      ensures exists m :: m in pending' && pending'[m].block == b
    {
      assert b !in responses;
      var m :| m in pending && pending[m].block == b;
      assert m in pending';
    }
  }

  lemma AnswerKeepsReads(lines: seq<Line>, data: map<nat, MshrEntry>, responses: seq<nat>,
                         pending: map<MemFetch, Pending>)
    requires ReadsOk(lines, data, responses, pending) && responses != [] && responses[0] in data
    requires data[responses[0]].list != []
    requires forall i, j :: 0 <= i < j < |responses| ==> responses[i] != responses[j]
    ensures var b := responses[0];
      ReadsOk(lines, Answered(data, b), if |data[b].list| == 1 then responses[1..] else responses, pending)
  {
    var b := responses[0];
    assert b in responses;
    if |data[b].list| == 1 {
      forall c | c in data && c != b
        ensures c in responses[1..] <==> c in responses
      {
        if c in responses {
          var j :| 0 <= j < |responses| && responses[j] == c;
          assert responses[1..][j - 1] == c;
        }
      }
      forall mf | mf in pending
        ensures pending[mf].block != b && pending[mf].block !in responses[1..]
      {
      }
    }
  }

  // ----- the registers -----

  class MshrTable {
    const numEntries: nat
    const maxMerged: nat
    var data: map<nat, MshrEntry>
    /** The blocks whose accesses are being handed back, oldest fill first. */
    var currentResponse: seq<nat>

    constructor (numEntries: nat, maxMerged: nat)
      ensures this.numEntries == numEntries && this.maxMerged == maxMerged
      ensures data == map[] && currentResponse == []
    {
      this.numEntries, this.maxMerged := numEntries, maxMerged;
      data, currentResponse := map[], [];
    }

    predicate Probe(block: nat)
      reads this
    {
      block in data
    }

    predicate Full(block: nat)
      reads this
    {
      if block in data then |data[block].list| >= maxMerged else |data| >= numEntries
    }

    method Add(g: Geometry, block: nat, mf: MemFetch)
      requires g.Valid() && TableOk(g, data, currentResponse, numEntries, maxMerged) && 0 < maxMerged
      requires !Full(block) && block == g.BlockAddr(mf.Addr())
      modifies this`data
      ensures data == Added(old(data), block, mf) && TableOk(g, data, currentResponse, numEntries, maxMerged)
    {
      AddKeepsTable(g, data, currentResponse, numEntries, maxMerged, mf);
      var e := if block in data then data[block] else MshrEntry([], false);
      data := data[block := e.(list := e.list + [mf])];
      if mf.IsAtomic() {
        data := data[block := data[block].(hasAtomic := true)];
      }
      assert data == Added(old(data), block, mf);
      assert |data| <= numEntries && |data[block].list| <= maxMerged;
    }

    method MarkReady(g: Geometry, block: nat) returns (hasAtomic: bool)
      requires g.Valid() && TableOk(g, data, currentResponse, numEntries, maxMerged)
      requires block in data && block !in currentResponse
      modifies this`currentResponse
      ensures currentResponse == old(currentResponse) + [block] && hasAtomic == data[block].hasAtomic
      ensures TableOk(g, data, currentResponse, numEntries, maxMerged)
    {
      currentResponse := currentResponse + [block];
      hasAtomic := data[block].hasAtomic;
      ResponsesFit(data.Keys, currentResponse);
      assert |data| == |data.Keys|;
      assert |currentResponse| <= |data|;
    }

    method NextAccess(g: Geometry) returns (mf: MemFetch)
      requires g.Valid() && TableOk(g, data, currentResponse, numEntries, maxMerged) && currentResponse != []
      modifies this
      ensures TableOk(g, data, currentResponse, numEntries, maxMerged)
      ensures var b := old(currentResponse)[0];
        && b in old(data) && old(data)[b].list != [] && mf == old(data)[b].list[0]
        && data == Answered(old(data), b)
        && currentResponse == if |old(data)[b].list| == 1 then old(currentResponse)[1..] else old(currentResponse)
    {
      AnswerKeepsTable(g, data, currentResponse, numEntries, maxMerged);
      var block := currentResponse[0];
      mf := data[block].list[0];
      data := data[block := data[block].(list := data[block].list[1..])];
      if data[block].list == [] {
        data := data - {block};
        currentResponse := currentResponse[1..];
      }
      assert data == Answered(old(data), block);
    }
  }

  // ----- the cache -----

  datatype WritePolicy = WriteBackPolicy | WriteThrough | WriteEvict | LocalBackGlobalEvict

  /** What the fields of a cache hold: lines, miss queue, registers, the blocks being answered, and the reads sent
      to memory and not answered yet. The rest is bookkeeping for the proof: the misses accepted so far, those
      handed back, the lines whose last accepted miss was for a block being answered, so that it sent no read, and
      whether there ever was such a miss. */
  datatype State = State(lines: seq<Line>, queue: seq<MemFetch>, data: map<nat, MshrEntry>, responses: seq<nat>,
                         pending: map<MemFetch, Pending>, accepted: seq<MemFetch>, returned: seq<MemFetch>,
                         stranded: set<nat>, missedAnswered: bool)

  ghost predicate Consistent(g: Geometry, s: State)
    requires g.Valid()
  {
    && LinesOk(g, s.lines)
    && ReadsOk(s.lines, s.data, s.responses, s.pending)
    && ReturnedInOrder(g, s.accepted, s.returned, s.data)
    && StrandedOk(s.lines, s.pending, s.stranded)
    && (s.stranded != {} ==> s.missedAnswered)
    && AtomicsOk(s.data, s.responses)
  }

  /** Touching a line that keeps its tag and its reservation, or its lack of one. */
  lemma TouchKeepsConsistency(g: Geometry, s: State, idx: nat, line: Line)
    requires g.Valid() && Consistent(g, s)
    requires idx < |s.lines| && s.lines[idx].status != Invalid
    requires line.tag == s.lines[idx].tag && line.blockAddr == s.lines[idx].blockAddr
    requires s.lines[idx].status == Reserved <==> line.status == Reserved
    ensures Consistent(g, s.(lines := s.lines[idx := line]))
  {
    var lines' := s.lines[idx := line];
    assert LinesOk(g, lines');
    assert ReadsOk(lines', s.data, s.responses, s.pending);
  }

  /** The line that an accepted miss reserves (or finds reserved) has an outstanding read exactly when the
      block is not being answered. Otherwise, when the line was evicted while its register was still being
      answered, the miss merges into that register and sends no read: the line stays reserved until the register
      has drained and a later miss on the block finds it and sends one. */
  lemma ReservedLineHasReadIff(g: Geometry, s: State, block: nat, time: nat, status: RequestStatus, idx: nat,
                               mf: MemFetch)
    requires g.Valid() && Consistent(g, s)
    requires g.BlockAddr(mf.Addr()) == block == g.BlockAddr(block) && mf !in s.pending
    requires status in {Miss, HitReserved} && Probed(g, s.lines, block, status, idx)
    requires forall b :: b in s.responses ==> b in s.data
    ensures var lines' := Accessed(g, s.lines, block, time, status, idx);
      && lines'[idx].status == Reserved && lines'[idx].tag == block
      && (AwaitsRead(AfterMiss(g, s, block, mf, time, status, idx).pending, idx) <==> block !in s.responses)
  {
    var pending' := AfterMiss(g, s, block, mf, time, status, idx).pending;
    if block !in s.responses {
      if block !in s.data {
        assert pending'[mf] == Pending(block, idx);
      } else {
        var m :| m in s.pending && s.pending[m].block == block;
        var i := s.pending[m].index;
        assert g.InSet(block, i) && Matches(s.lines[i], block);
        assert i == idx;
        assert pending'[m] == Pending(block, idx);
      }
    }
  }

  /** The cache after a miss was taken: merged into a register, or sent as a read. The queue is not included.
      The line of the miss is stranded exactly when its block is being answered. */
  function AfterMiss(g: Geometry, s: State, block: nat, mf: MemFetch, time: nat, status: RequestStatus, idx: nat): State
    requires 0 < g.lineSize && idx < |s.lines|
  {
    var answering := block in s.responses;
    s.(lines := Accessed(g, s.lines, block, time, status, idx), data := Added(s.data, block, mf),
       pending := if block in s.data then s.pending else s.pending[mf := Pending(block, idx)],
       accepted := s.accepted + [mf],
       stranded := if answering then s.stranded + {idx} else s.stranded - {idx},
       missedAnswered := s.missedAnswered || answering)
  }

  lemma MissKeepsStranded(g: Geometry, s: State, block: nat, time: nat, status: RequestStatus, idx: nat, mf: MemFetch)
    requires g.Valid() && Consistent(g, s)
    requires g.BlockAddr(mf.Addr()) == block == g.BlockAddr(block) && mf !in s.pending
    requires status in {Miss, HitReserved} && Probed(g, s.lines, block, status, idx)
    requires forall b :: b in s.responses ==> b in s.data
    ensures var s' := AfterMiss(g, s, block, mf, time, status, idx); StrandedOk(s'.lines, s'.pending, s'.stranded)
  {
    var s' := AfterMiss(g, s, block, mf, time, status, idx);
    forall i: nat | i < |s.lines|
      ensures i in s'.stranded <==> s'.lines[i].status == Reserved && !AwaitsRead(s'.pending, i)
    {
      if i == idx {
        ReservedLineHasReadIff(g, s, block, time, status, idx, mf);
      } else {
        ReadsElsewhere(s.pending, mf, Pending(block, idx), i);
        assert s'.lines[i] == s.lines[i];
      }
    }
  }

  lemma ReadsElsewhere(pending: map<MemFetch, Pending>, mf: MemFetch, p: Pending, i: nat)
    requires mf !in pending && i != p.index
    ensures AwaitsRead(pending[mf := p], i) <==> AwaitsRead(pending, i)
  {
    var pending' := pending[mf := p];
    if AwaitsRead(pending, i) {
      var m :| m in pending && pending[m].index == i;
      assert pending'[m].index == i;
    }
  }

  lemma MissKeepsConsistency(g: Geometry, s: State, block: nat, time: nat, status: RequestStatus, idx: nat,
                             mf: MemFetch)
    requires g.Valid() && Consistent(g, s)
    requires g.BlockAddr(mf.Addr()) == block == g.BlockAddr(block) && mf !in s.pending
    requires status in {Miss, HitReserved} && Probed(g, s.lines, block, status, idx)
    requires forall b :: b in s.responses ==> b in s.data
    ensures Consistent(g, AfterMiss(g, s, block, mf, time, status, idx))
  {
    var s' := AfterMiss(g, s, block, mf, time, status, idx);
    assert LinesOk(g, s'.lines) by {
      MissKeepsLines(g, s.lines, block, time, status, idx);
    }
    assert ReadsOk(s'.lines, s'.data, s'.responses, s'.pending) by {
      if block in s.data {
        MergeKeepsReads(s.lines, s.data, s.responses, s.pending, s'.lines, block, mf);
      } else {
        SendKeepsReads(s.lines, s.data, s.responses, s.pending, s'.lines, block, idx, mf);
      }
    }
    assert ReturnedInOrder(g, s'.accepted, s'.returned, s'.data) by {
      AddKeepsOrder(g, s.accepted, s.returned, s.data, mf);
    }
    assert StrandedOk(s'.lines, s'.pending, s'.stranded) by {
      MissKeepsStranded(g, s, block, time, status, idx, mf);
    }
    AddKeepsAtomics(s.data, s.responses, block, mf);
  }

  /** The cache after the read `mf` was answered and its line became `line`. */
  function AfterFill(s: State, mf: MemFetch, line: Line): State
    requires mf in s.pending && s.pending[mf].index < |s.lines|
  {
    var p := s.pending[mf];
    s.(lines := s.lines[p.index := line], responses := s.responses + [p.block], pending := s.pending - {mf})
  }

  lemma FillKeepsStranded(s: State, mf: MemFetch, line: Line)
    requires ReadsOk(s.lines, s.data, s.responses, s.pending) && StrandedOk(s.lines, s.pending, s.stranded)
    requires mf in s.pending && line.status != Reserved
    ensures var s' := AfterFill(s, mf, line); StrandedOk(s'.lines, s'.pending, s'.stranded)
  {
    var pending', idx := s.pending - {mf}, s.pending[mf].index;
    assert AwaitsRead(s.pending, idx);
    forall i: nat | i < |s.lines| && i != idx
      ensures AwaitsRead(pending', i) <==> AwaitsRead(s.pending, i)
    {
      if AwaitsRead(s.pending, i) {
        var m :| m in s.pending && s.pending[m].index == i;
        assert m in pending' && pending'[m].index == i;
      }
    }
  }

  /** A fill makes a reserved line resident, and its register ready to be answered. */
  lemma FillKeepsConsistency(g: Geometry, s: State, mf: MemFetch, line: Line)
    requires g.Valid() && Consistent(g, s) && mf in s.pending && line.status != Reserved
    requires var old_ := s.lines[s.pending[mf].index]; line.tag == old_.tag && line.blockAddr == old_.blockAddr
    ensures Consistent(g, AfterFill(s, mf, line))
  {
    FillKeepsReads(s.lines, s.data, s.responses, s.pending, s.lines[s.pending[mf].index := line], mf);
    FillKeepsStranded(s, mf, line);
  }

  /** The cache after one access of the block answered first was handed back. */
  function AfterAnswer(s: State): State
    requires s.responses != [] && s.responses[0] in s.data && s.data[s.responses[0]].list != []
  {
    var b := s.responses[0];
    s.(data := Answered(s.data, b), responses := if |s.data[b].list| == 1 then s.responses[1..] else s.responses,
       returned := s.returned + [s.data[b].list[0]])
  }

  lemma AnswerKeepsConsistency(g: Geometry, s: State, numEntries: nat, maxMerged: nat)
    requires g.Valid() && Consistent(g, s)
    requires TableOk(g, s.data, s.responses, numEntries, maxMerged) && s.responses != []
    ensures s.responses[0] in s.data && s.data[s.responses[0]].list != []
    ensures Consistent(g, AfterAnswer(s))
  {
    assert s.responses[0] in s.responses;
    AnswerKeepsReads(s.lines, s.data, s.responses, s.pending);
    AnswerKeepsOrder(g, s.accepted, s.returned, s.data, s.responses[0]);
    AnswerKeepsAtomics(s.data, s.responses);
  }

  /** The block that the victim of a miss has to write back, if any. */
  function WrittenBack(policy: WritePolicy, status: RequestStatus, lines: seq<Line>, idx: nat): seq<MemFetch>
    requires status == Miss ==> idx < |lines|
  {
    if status == Miss && lines[idx].status == Modified && policy != WriteThrough then [WriteBack(lines[idx].blockAddr)]
    else []
  }

  /** What an accepted access sends to memory: at most its own write, a read, and the write-back of a victim. */
  function Sends(policy: WritePolicy, writeAllocate: bool, lines: seq<Line>, merged: bool, status: RequestStatus,
                 idx: nat, mf: MemFetch): seq<MemFetch>
    requires mf.Request? && (status == Miss ==> idx < |lines|)
  {
    var victim := WrittenBack(policy, status, lines, idx);
    if !mf.isWrite then
      if status == Hit then [] else (if merged then [] else [mf]) + victim
    else if status == Hit then
      if policy == WriteBackPolicy || (policy == LocalBackGlobalEvict && !mf.isGlobal) then [] else [mf]
    else if writeAllocate then [mf] + (if merged then [] else [AllocateRead(mf)]) + victim
    else [mf]
  }

  /** When an access is rejected: no line, no register, or not enough room in the miss queue for the worst case. */
  predicate Rejects(policy: WritePolicy, writeAllocate: bool, room: int, mshrFull: bool, status: RequestStatus,
                    mf: MemFetch)
    requires mf.Request?
  {
    || status == ReservationFail
    || (status == Hit && mf.isWrite && room < 1
        && !(policy == WriteBackPolicy || (policy == LocalBackGlobalEvict && !mf.isGlobal)))
    || (status != Hit && !mf.isWrite && (room < 2 || mshrFull))
    || (status != Hit && mf.isWrite && writeAllocate && (room < 3 || mshrFull))
    || (status != Hit && mf.isWrite && !writeAllocate && room < 1)
  }

  /** The line after a hit. */
  function LineAfterHit(policy: WritePolicy, line: Line, mf: MemFetch, time: nat): Line
    requires mf.Request?
  {
    if !mf.isWrite then line.(lastAccessTime := time, status := if mf.isAtomic then Modified else line.status)
    else if policy == WriteEvict || (policy == LocalBackGlobalEvict && mf.isGlobal) then line.(status := Invalid)
    else line.(lastAccessTime := time, status := Modified)
  }

  /** The cache after an access was accepted: the requests it sends are queued, and a line was hit, a miss was
      taken, or a write that does not allocate passed by. */
  function AfterAccess(g: Geometry, policy: WritePolicy, writeAllocate: bool, s: State, block: nat, mf: MemFetch,
                       time: nat, probed: RequestStatus, idx: nat): State
    requires 0 < g.lineSize && mf.Request? && idx < |s.lines|
  {
    var queue' := s.queue + Sends(policy, writeAllocate, s.lines, block in s.data, probed, idx, mf);
    if probed == Hit then s.(lines := s.lines[idx := LineAfterHit(policy, s.lines[idx], mf, time)], queue := queue')
    else if mf.isWrite && !writeAllocate then s.(queue := queue')
    else AfterMiss(g, s, block, if mf.isWrite then AllocateRead(mf) else mf, time, probed, idx).(queue := queue')
  }

  lemma AccessKeepsConsistency(g: Geometry, policy: WritePolicy, writeAllocate: bool, s: State, block: nat,
                               mf: MemFetch, time: nat, probed: RequestStatus, idx: nat)
    requires g.Valid() && Consistent(g, s) && mf.Request?
    requires (if mf.isWrite then AllocateRead(mf) else mf) !in s.pending
    requires probed != ReservationFail && Probed(g, s.lines, block, probed, idx)
    requires g.BlockAddr(mf.Addr()) == block == g.BlockAddr(block) && forall b :: b in s.responses ==> b in s.data
    ensures Consistent(g, AfterAccess(g, policy, writeAllocate, s, block, mf, time, probed, idx))
  {
    if probed == Hit {
      TouchKeepsConsistency(g, s, idx, LineAfterHit(policy, s.lines[idx], mf, time));
    } else if mf.isWrite ==> writeAllocate {
      MissKeepsConsistency(g, s, block, time, probed, idx, if mf.isWrite then AllocateRead(mf) else mf);
    }
  }

  /** The blocks that a queue of requests writes back. */
  ghost function WriteBacks(q: seq<MemFetch>): seq<nat> {
    if q == [] then []
    else WriteBacks(q[..|q| - 1]) + if q[|q| - 1].WriteBack? then [q[|q| - 1].block] else []
  }

  lemma {:induction false} WriteBacksAppend(q: seq<MemFetch>, r: seq<MemFetch>)
    ensures WriteBacks(q + r) == WriteBacks(q) + WriteBacks(r)
  {
    if r == [] {
      assert q + r == q;
    } else {
      WriteBacksAppend(q, r[..|r| - 1]);
      assert (q + r)[..|q + r| - 1] == q + r[..|r| - 1];
    }
  }

  lemma WriteBacksOfOne(mf: MemFetch)
    ensures WriteBacks([mf]) == if mf.WriteBack? then [mf.block] else []
  {
    assert [mf][..0] == [] && WriteBacks([mf][..0]) == [];
  }

  /** A modified line has been replaced by a miss. */
  ghost predicate Replaced(lines: seq<Line>, lines': seq<Line>, idx: nat) {
    idx < |lines| == |lines'| && lines[idx].status == Modified && lines'[idx].status == Reserved
  }

  /** What an access sends to memory writes back the modified line that it replaces, if it replaces one and writes have
      not gone through already, and nothing else. */
  lemma SendsVictim(policy: WritePolicy, writeAllocate: bool, lines: seq<Line>, merged: bool, status: RequestStatus,
                    idx: nat, mf: MemFetch)
    requires mf.Request? && idx < |lines|
    ensures WriteBacks(Sends(policy, writeAllocate, lines, merged, status, idx, mf)) ==
      if status == Miss && (mf.isWrite ==> writeAllocate) && lines[idx].status == Modified && policy != WriteThrough
      then [lines[idx].blockAddr] else []
  {
    var victim := WrittenBack(policy, status, lines, idx);
    WriteBacksOfOne(mf);
    WriteBacksOfOne(AllocateRead(mf));
    WriteBacksOfOne(WriteBack(lines[idx].blockAddr));
    WriteBacksAppend(if merged then [] else [mf], victim);
    WriteBacksAppend([mf], if merged then [] else [AllocateRead(mf)]);
    WriteBacksAppend([mf] + (if merged then [] else [AllocateRead(mf)]), victim);
  }

  lemma ReplacedByMiss(g: Geometry, policy: WritePolicy, writeAllocate: bool, s: State, block: nat, mf: MemFetch,
                       time: nat, probed: RequestStatus, idx: nat)
    requires 0 < g.lineSize && mf.Request? && idx < |s.lines| && probed != ReservationFail
    requires probed == HitReserved ==> s.lines[idx].status != Modified
    ensures Replaced(s.lines, AfterAccess(g, policy, writeAllocate, s, block, mf, time, probed, idx).lines, idx) <==>
      s.lines[idx].status == Modified && probed == Miss && (mf.isWrite ==> writeAllocate)
  {
  }

  lemma AccessWritesBackVictim(g: Geometry, policy: WritePolicy, writeAllocate: bool, s: State, block: nat,
                               mf: MemFetch, time: nat, probed: RequestStatus, idx: nat)
    requires 0 < g.lineSize && mf.Request? && idx < |s.lines| && probed != ReservationFail
    requires probed == HitReserved ==> s.lines[idx].status != Modified
    ensures var s' := AfterAccess(g, policy, writeAllocate, s, block, mf, time, probed, idx);
      WriteBacks(s'.queue) == WriteBacks(s.queue)
        + if Replaced(s.lines, s'.lines, idx) && policy != WriteThrough then [s.lines[idx].blockAddr] else []
  {
    var sends := Sends(policy, writeAllocate, s.lines, block in s.data, probed, idx, mf);
    ReplacedByMiss(g, policy, writeAllocate, s, block, mf, time, probed, idx);
    SendsVictim(policy, writeAllocate, s.lines, block in s.data, probed, idx, mf);
    WriteBacksAppend(s.queue, sends);
  }

  /** No line has to be written back. */
  ghost predicate Clean(lines: seq<Line>) {
    forall i :: 0 <= i < |lines| ==> lines[i].status != Modified
  }

  lemma ReadStaysClean(g: Geometry, policy: WritePolicy, writeAllocate: bool, s: State, block: nat, mf: MemFetch,
                       time: nat, probed: RequestStatus, idx: nat)
    requires 0 < g.lineSize && mf.Request? && !mf.isWrite && !mf.isAtomic && idx < |s.lines| && Clean(s.lines)
    ensures Clean(AfterAccess(g, policy, writeAllocate, s, block, mf, time, probed, idx).lines)
  {
  }

  /** The room asked for is what is needed in the worst case. */
  lemma SendsFit(policy: WritePolicy, writeAllocate: bool, room: nat, lines: seq<Line>, merged: bool,
                 status: RequestStatus, idx: nat, mf: MemFetch)
    requires mf.Request? && idx < |lines| && !Rejects(policy, writeAllocate, room, false, status, mf)
    ensures |Sends(policy, writeAllocate, lines, merged, status, idx, mf)| <= room
  {
  }

  /** An access is rejected exactly when there is no line for it, no register for a miss that allocates, or too little
      room for what it might have to send: for a hit that is known, for a miss it is what it sends if the register is
      new and the victim modified, whatever the policy. */
  lemma RejectsIffTooLittleRoom(policy: WritePolicy, writeAllocate: bool, room: nat, mshrFull: bool,
                                status: RequestStatus, mf: MemFetch, lines: seq<Line>, merged: bool, idx: nat,
                                dirty: Line)
    requires mf.Request? && idx < |lines| && dirty.status == Modified
    ensures Rejects(policy, writeAllocate, room, mshrFull, status, mf) <==>
      || status == ReservationFail
      || (status == Hit && room < |Sends(policy, writeAllocate, lines, merged, Hit, idx, mf)|)
      || (status in {HitReserved, Miss} && (mf.isWrite ==> writeAllocate) && mshrFull)
      || (status in {HitReserved, Miss}
          && room < |Sends(WriteBackPolicy, writeAllocate, [dirty], false, Miss, 0, mf)|)
  {
  }

  /** An accepted write is not dropped: it is sent to memory itself, or its line is modified; and it is always sent
      when the policy says that memory has all writes. */
  lemma WritesAreSentOrKept(g: Geometry, policy: WritePolicy, writeAllocate: bool, s: State, block: nat,
                            mf: MemFetch, time: nat, probed: RequestStatus, idx: nat)
    requires 0 < g.lineSize && mf.Request? && mf.isWrite && idx < |s.lines| && probed != ReservationFail
    ensures var s' := AfterAccess(g, policy, writeAllocate, s, block, mf, time, probed, idx);
      && s.queue <= s'.queue
      && (mf in s'.queue[|s.queue|..]
          || (probed == Hit && s'.lines[idx].status == Modified && s'.lines[idx].tag == s.lines[idx].tag))
      && (policy in {WriteThrough, WriteEvict} ==> mf in s'.queue[|s.queue|..])
  {
    var sends := Sends(policy, writeAllocate, s.lines, block in s.data, probed, idx, mf);
    assert (s.queue + sends)[|s.queue|..] == sends;
    if sends != [] && sends[0] == mf {
      assert mf in sends;
    }
  }

  class DataCache {
    const g: Geometry
    const policy: WritePolicy
    const writeAllocate: bool
    const missQueueSize: nat
    const tags: TagArray
    const mshrs: MshrTable
    var missQueue: seq<MemFetch>
    var pending: map<MemFetch, Pending>

    ghost var accepted: seq<MemFetch>
    ghost var returned: seq<MemFetch>
    ghost var stranded: set<nat>
    ghost var missedAnswered: bool

    constructor (g: Geometry, policy: WritePolicy, writeAllocate: bool, numEntries: nat, maxMerged: nat,
                 missQueueSize: nat)
      requires g.Valid() && 0 < maxMerged
      ensures Valid() && this.g == g && this.policy == policy && this.writeAllocate == writeAllocate
      ensures this.missQueueSize == missQueueSize && mshrs.numEntries == numEntries && mshrs.maxMerged == maxMerged
      ensures Now() == State(tags.lines[..], [], map[], [], map[], [], [], {}, false)
      ensures forall i :: 0 <= i < tags.lines.Length ==> tags.lines[i].status == Invalid
      ensures fresh(tags) && fresh(tags.lines) && fresh(mshrs)
    {
      this.g, this.policy, this.writeAllocate, this.missQueueSize := g, policy, writeAllocate, missQueueSize;
      tags := new TagArray(g);
      mshrs := new MshrTable(numEntries, maxMerged);
      missQueue, pending, accepted, returned := [], map[], [], [];
      stranded, missedAnswered := {}, false;
    }

    ghost function Now(): State
      reads this, tags.lines, mshrs
    {
      State(tags.lines[..], missQueue, mshrs.data, mshrs.currentResponse, pending, accepted, returned,
            stranded, missedAnswered)
    }

    /** Each part on its own is in order. */
    ghost predicate PartsValid()
      reads this, tags, tags.lines, mshrs
    {
      && tags.Valid() && tags.g == g && 0 < mshrs.maxMerged
      && TableOk(g, mshrs.data, mshrs.currentResponse, mshrs.numEntries, mshrs.maxMerged)
    }

    ghost predicate Valid()
      reads this, tags, tags.lines, mshrs
    {
      PartsValid() && Consistent(g, Now()) && |missQueue| <= missQueueSize
    }

    predicate MissQueueFull(numMiss: nat)
      reads this
    {
      |missQueue| + numMiss >= missQueueSize
    }

    /** Merges a miss into a register, or takes a register and sends a read, if there is room. */
    method SendReadRequest(block: nat, mf: MemFetch, time: nat, ghost status: RequestStatus, ghost idx: nat)
      returns (doMiss: bool, wb: bool, evicted: Line)
      requires PartsValid() && time < UINT_MAX && g.BlockAddr(mf.Addr()) == block
      requires status in {Miss, HitReserved} && Probed(g, tags.lines[..], block, status, idx)
      modifies this, tags.lines, mshrs`data
      ensures PartsValid()
      ensures doMiss <==> !old(mshrs.Full(block)) && (old(mshrs.Probe(block)) || |old(missQueue)| < missQueueSize)
      ensures !doMiss ==> Now() == old(Now())
      ensures doMiss ==>
        && Now() == AfterMiss(g, old(Now()), block, mf, time, status, idx).(
                      queue := old(missQueue) + if old(mshrs.Probe(block)) then [] else [mf])
        && (wb <==> status == Miss && old(tags.lines[..])[idx].status == Modified)
        && (wb ==> evicted == old(tags.lines[..])[idx])
    {
      doMiss, wb, evicted := false, false, Line(0, 0, 0, 0, 0, Invalid);
      var mshrHit, mshrAvail := mshrs.Probe(block), !mshrs.Full(block);
      if mshrHit && mshrAvail {
        wb, evicted := TakeMiss(block, mf, time, status, idx);
        doMiss := true;
      } else if !mshrHit && mshrAvail && |missQueue| < missQueueSize {
        wb, evicted := TakeMiss(block, mf, time, status, idx);
        doMiss := true;
      }
    }

    /** The changes of an accepted miss. */
    method TakeMiss(block: nat, mf: MemFetch, time: nat, ghost status: RequestStatus, ghost idx: nat)
      returns (wb: bool, evicted: Line)
      requires PartsValid() && time < UINT_MAX && g.BlockAddr(mf.Addr()) == block
      requires status in {Miss, HitReserved} && Probed(g, tags.lines[..], block, status, idx)
      requires !mshrs.Full(block)
      modifies this, tags.lines, mshrs`data
      ensures PartsValid()
      ensures Now() == AfterMiss(g, old(Now()), block, mf, time, status, idx).(
                         queue := old(missQueue) + if old(mshrs.Probe(block)) then [] else [mf])
      ensures wb <==> status == Miss && old(tags.lines[..])[idx].status == Modified
      ensures wb ==> evicted == old(tags.lines[..])[idx]
    {
      var mshrHit := mshrs.Probe(block);
      var i;
      i, wb, evicted := AccessTags(block, time, status, idx);
      mshrs.Add(g, block, mf);
      Enqueue(block, mf, mshrHit, i);
    }

    /** A miss without a register sends a read, for which its line is remembered. */
    method Enqueue(block: nat, mf: MemFetch, mshrHit: bool, i: nat)
      modifies this`pending, this`missQueue, this`accepted, this`stranded, this`missedAnswered
      ensures pending == if mshrHit then old(pending) else old(pending)[mf := Pending(block, i)]
      ensures missQueue == old(missQueue) + if mshrHit then [] else [mf]
      ensures accepted == old(accepted) + [mf]
      ensures stranded == if block in mshrs.currentResponse then old(stranded) + {i} else old(stranded) - {i}
      ensures missedAnswered == (old(missedAnswered) || block in mshrs.currentResponse)
    {
      if !mshrHit {
        pending := pending[mf := Pending(block, i)];
        missQueue := missQueue + [mf];
      }
      accepted := accepted + [mf];
      stranded := if block in mshrs.currentResponse then stranded + {i} else stranded - {i};
      missedAnswered := missedAnswered || block in mshrs.currentResponse;
    }

    /** The tag array is accessed again, and finds what the lookup before found. */
    method AccessTags(block: nat, time: nat, ghost status: RequestStatus, ghost idx: nat)
      returns (i: nat, wb: bool, evicted: Line)
      requires tags.Valid() && tags.g == g && time < UINT_MAX
      requires status != ReservationFail && Probed(g, tags.lines[..], block, status, idx)
      modifies tags.lines
      ensures tags.Valid() && i == idx && tags.lines[..] == Accessed(g, old(tags.lines[..]), block, time, status, idx)
      ensures wb <==> status == Miss && old(tags.lines[..])[idx].status == Modified
      ensures wb ==> evicted == old(tags.lines[..])[idx]
    {
      ghost var before := tags.lines[..];
      var s;
      s, i, wb, evicted := tags.Access(block, time);
      ProbeIsDetermined(g, before, block, s, i, status, idx);
    }

    /** Updates a line that was hit; its tag stays. */
    method UpdateHit(block: nat, time: nat, idx: nat, status: LineStatus)
      requires tags.Valid() && tags.g == g && time < UINT_MAX && Probed(g, tags.lines[..], block, Hit, idx)
      modifies tags.lines
      ensures tags.Valid()
      ensures tags.lines[..] == old(tags.lines[..])[
                idx := old(tags.lines[idx]).(lastAccessTime := time, status := status)]
    {
      var i, wb, evicted := AccessTags(block, time, Hit, idx);
      assert !wb;
      tags.SetStatus(i, status);
    }

    method WriteHit(mf: MemFetch, block: nat, time: nat, idx: nat) returns (status: RequestStatus)
      requires tags.Valid() && tags.g == g && time < UINT_MAX && mf.Request? && mf.isWrite
      requires Probed(g, tags.lines[..], block, Hit, idx)
      modifies this`missQueue, tags.lines
      ensures tags.Valid()
      ensures var rejected := Rejects(policy, writeAllocate, missQueueSize - |old(missQueue)|, false, Hit, mf);
        status == if rejected then ReservationFail else Hit
      ensures status == ReservationFail ==> missQueue == old(missQueue) && tags.lines[..] == old(tags.lines[..])
      ensures status == Hit ==>
        && missQueue == old(missQueue) + Sends(policy, writeAllocate, old(tags.lines[..]), false, Hit, idx, mf)
        && tags.lines[..] == old(tags.lines[..])[idx := LineAfterHit(policy, old(tags.lines[idx]), mf, time)]
    {
      match policy {
        case WriteBackPolicy => status := WriteHitBack(mf, block, time, idx);
        case WriteThrough => status := WriteHitThrough(mf, block, time, idx);
        case WriteEvict => status := WriteHitEvict(mf, block, time, idx);
        case LocalBackGlobalEvict =>
          if mf.isGlobal {
            status := WriteHitEvict(mf, block, time, idx);
          } else {
            status := WriteHitBack(mf, block, time, idx);
          }
      }
    }

    method WriteHitBack(mf: MemFetch, block: nat, time: nat, idx: nat) returns (status: RequestStatus)
      requires tags.Valid() && tags.g == g && time < UINT_MAX && Probed(g, tags.lines[..], block, Hit, idx)
      modifies tags.lines
      ensures tags.Valid() && status == Hit
      ensures tags.lines[..] == old(tags.lines[..])[
                idx := old(tags.lines[idx]).(lastAccessTime := time, status := Modified)]
    {
      UpdateHit(block, time, idx, Modified);
      status := Hit;
    }

    method WriteHitThrough(mf: MemFetch, block: nat, time: nat, idx: nat) returns (status: RequestStatus)
      requires tags.Valid() && tags.g == g && time < UINT_MAX && Probed(g, tags.lines[..], block, Hit, idx)
      modifies this`missQueue, tags.lines
      ensures tags.Valid() && status == if old(MissQueueFull(0)) then ReservationFail else Hit
      ensures status == ReservationFail ==> missQueue == old(missQueue) && tags.lines[..] == old(tags.lines[..])
      ensures status == Hit ==>
        && missQueue == old(missQueue) + [mf]
        && tags.lines[..] == old(tags.lines[..])[
             idx := old(tags.lines[idx]).(lastAccessTime := time, status := Modified)]
    {
      if MissQueueFull(0) {
        return ReservationFail;
      }
      UpdateHit(block, time, idx, Modified);
      missQueue := missQueue + [mf];
      status := Hit;
    }

    method WriteHitEvict(mf: MemFetch, block: nat, time: nat, idx: nat) returns (status: RequestStatus)
      requires tags.Valid() && tags.g == g && Probed(g, tags.lines[..], block, Hit, idx)
      modifies this`missQueue, tags.lines
      ensures tags.Valid() && status == if old(MissQueueFull(0)) then ReservationFail else Hit
      ensures status == ReservationFail ==> missQueue == old(missQueue) && tags.lines[..] == old(tags.lines[..])
      ensures status == Hit ==>
        && missQueue == old(missQueue) + [mf]
        && tags.lines[..] == old(tags.lines[..])[idx := old(tags.lines[idx]).(status := Invalid)]
    {
      if MissQueueFull(0) {
        return ReservationFail;
      }
      missQueue := missQueue + [mf];
      tags.SetStatus(idx, Invalid);
      status := Hit;
    }

    method ReadHit(mf: MemFetch, block: nat, time: nat, idx: nat) returns (status: RequestStatus)
      requires tags.Valid() && tags.g == g && time < UINT_MAX && mf.Request? && !mf.isWrite
      requires Probed(g, tags.lines[..], block, Hit, idx)
      modifies tags.lines
      ensures tags.Valid() && status == Hit
      ensures tags.lines[..] == old(tags.lines[..])[idx := LineAfterHit(policy, old(tags.lines[idx]), mf, time)]
    {
      UpdateHit(block, time, idx, if mf.isAtomic then Modified else tags.lines[idx].status);
      status := Hit;
    }

    /** The victim of a miss is written back if it was modified, unless writes go through. */
    method QueueVictim(wb: bool, evicted: Line)
      modifies this`missQueue
      ensures missQueue == old(missQueue) + if wb && policy != WriteThrough then [WriteBack(evicted.blockAddr)] else []
    {
      if wb && policy != WriteThrough {
        missQueue := missQueue + [WriteBack(evicted.blockAddr)];
      }
    }

    method ReadMiss(mf: MemFetch, block: nat, time: nat, ghost probed: RequestStatus, ghost idx: nat)
      returns (status: RequestStatus)
      requires PartsValid() && time < UINT_MAX && mf.Request? && !mf.isWrite && g.BlockAddr(mf.Addr()) == block
      requires probed in {Miss, HitReserved} && Probed(g, tags.lines[..], block, probed, idx)
      modifies this, tags.lines, mshrs`data
      ensures PartsValid()
      ensures status == if old(MissQueueFull(1) || mshrs.Full(block)) then ReservationFail else Miss
      ensures Now() == if status == ReservationFail then old(Now())
                       else AfterAccess(g, policy, writeAllocate, old(Now()), block, mf, time, probed, idx)
      ensures status == Miss ==>
        missQueue == old(missQueue) + (if old(mshrs.Probe(block)) then [] else [mf])
          + if probed == Miss && old(tags.lines[..])[idx].status == Modified && policy != WriteThrough
            then [WriteBack(old(tags.lines[..])[idx].blockAddr)] else []
    {
      if MissQueueFull(1) {
        return ReservationFail;
      }
      var doMiss, wb, evicted := SendReadRequest(block, mf, time, probed, idx);
      if doMiss {
        QueueVictim(wb, evicted);
        return Miss;
      }
      return ReservationFail;
    }

    method WriteMissAllocate(mf: MemFetch, block: nat, time: nat, ghost probed: RequestStatus, ghost idx: nat)
      returns (status: RequestStatus)
      requires PartsValid() && time < UINT_MAX && mf.Request? && mf.isWrite && writeAllocate
      requires g.BlockAddr(mf.Addr()) == block
      requires probed in {Miss, HitReserved} && Probed(g, tags.lines[..], block, probed, idx)
      modifies this, tags.lines, mshrs`data
      ensures PartsValid()
      ensures status == if old(MissQueueFull(2) || mshrs.Full(block)) then ReservationFail else Miss
      ensures Now() == if status == ReservationFail then old(Now())
                       else AfterAccess(g, policy, writeAllocate, old(Now()), block, mf, time, probed, idx)
      ensures status == Miss ==>
        missQueue == old(missQueue) + [mf] + (if old(mshrs.Probe(block)) then [] else [AllocateRead(mf)])
          + if probed == Miss && old(tags.lines[..])[idx].status == Modified && policy != WriteThrough
            then [WriteBack(old(tags.lines[..])[idx].blockAddr)] else []
    {
      var mshrHit, mshrAvail := mshrs.Probe(block), !mshrs.Full(block);
      if MissQueueFull(2)
         || (!(mshrHit && mshrAvail) && !(!mshrHit && mshrAvail && |missQueue| < missQueueSize)) {
        return ReservationFail;
      }
      missQueue := missQueue + [mf];
      var doMiss, wb, evicted := SendReadRequest(block, AllocateRead(mf), time, probed, idx);
      // The rejection that would follow here cannot happen: the room was checked above.
      assert doMiss;
      QueueVictim(wb, evicted);
      assert missQueue == old(missQueue) + Sends(policy, writeAllocate, old(tags.lines[..]), mshrHit, probed, idx, mf);
      return Miss;
    }

    method WriteMissNoAllocate(mf: MemFetch) returns (status: RequestStatus)
      modifies this`missQueue
      ensures status == if old(MissQueueFull(0)) then ReservationFail else Miss
      ensures missQueue == if status == Miss then old(missQueue) + [mf] else old(missQueue)
    {
      if MissQueueFull(0) {
        return ReservationFail;
      }
      missQueue := missQueue + [mf];
      return Miss;
    }

    /** Handles a request by the outcome of its lookup. */
    method ProcessTagProbe(mf: MemFetch, block: nat, time: nat, probed: RequestStatus, idx: nat)
      returns (status: RequestStatus)
      requires PartsValid() && time < UINT_MAX && mf.Request? && g.BlockAddr(mf.Addr()) == block
      requires Probed(g, tags.lines[..], block, probed, idx)
      modifies this, tags.lines, mshrs`data
      ensures PartsValid()
      ensures status == ReservationFail <==>
        Rejects(policy, writeAllocate, missQueueSize - |old(missQueue)|, old(mshrs.Full(block)), probed, mf)
      ensures Now() == if status == ReservationFail then old(Now())
                       else AfterAccess(g, policy, writeAllocate, old(Now()), block, mf, time, probed, idx)
    {
      status := probed;
      if mf.isWrite {
        if probed == Hit {
          status := WriteHit(mf, block, time, idx);
        } else if probed != ReservationFail {
          if writeAllocate {
            status := WriteMissAllocate(mf, block, time, probed, idx);
          } else {
            status := WriteMissNoAllocate(mf);
          }
        }
      } else {
        if probed == Hit {
          status := ReadHit(mf, block, time, idx);
        } else if probed != ReservationFail {
          status := ReadMiss(mf, block, time, probed, idx);
        }
      }
    }

    /** One access: all or nothing, and consistent either way. */
    method Access(mf: MemFetch, time: nat) returns (status: RequestStatus, ghost probed: RequestStatus, ghost idx: nat)
      requires Valid() && time < UINT_MAX && mf.Request? && (if mf.isWrite then AllocateRead(mf) else mf) !in pending
      modifies this, tags.lines, mshrs`data
      ensures Valid() && Probed(g, old(tags.lines[..]), g.BlockAddr(mf.Addr()), probed, idx)
      ensures status == ReservationFail <==>
        Rejects(policy, writeAllocate, missQueueSize - |old(missQueue)|, old(mshrs.Full(g.BlockAddr(mf.Addr()))),
                probed, mf)
      ensures Now() == if status == ReservationFail then old(Now())
                       else AfterAccess(g, policy, writeAllocate, old(Now()), g.BlockAddr(mf.Addr()), mf, time,
                                        probed, idx)
      ensures status != ReservationFail ==>
        WriteBacks(missQueue) == WriteBacks(old(missQueue))
          + if Replaced(old(tags.lines[..]), tags.lines[..], idx) && policy != WriteThrough
            then [old(tags.lines[..])[idx].blockAddr] else []
    {
      var block := g.BlockAddr(mf.Addr());
      BlockAddrIsIdempotent(g, mf.Addr());
      var p, i := tags.Probe(block);
      probed, idx := p, i;
      status := ProcessTagProbe(mf, block, time, p, i);
      if status != ReservationFail {
        AccessKeepsConsistency(g, policy, writeAllocate, old(Now()), block, mf, time, p, i);
        AccessWritesBackVictim(g, policy, writeAllocate, old(Now()), block, mf, time, p, i);
        SendsFit(policy, writeAllocate, missQueueSize - |old(missQueue)|, old(tags.lines[..]),
                 old(mshrs.Probe(block)), p, i, mf);
      }
    }

    /** The access of a read-only cache: no writes, no victims to write back. */
    method AccessReadOnly(mf: MemFetch, time: nat)
      returns (status: RequestStatus, ghost probed: RequestStatus, ghost idx: nat)
      requires Valid() && time < UINT_MAX && mf.Request? && !mf.isWrite && !mf.isAtomic && mf !in pending
      requires Clean(tags.lines[..])
      modifies this, tags.lines, mshrs`data
      ensures Valid() && Clean(tags.lines[..])
      ensures Probed(g, old(tags.lines[..]), g.BlockAddr(mf.Addr()), probed, idx)
      ensures status == ReservationFail <==>
        probed == ReservationFail || (probed != Hit && old(MissQueueFull(0) || mshrs.Full(g.BlockAddr(mf.Addr()))))
      ensures Now() == if status == ReservationFail then old(Now())
                       else AfterAccess(g, policy, writeAllocate, old(Now()), g.BlockAddr(mf.Addr()), mf, time,
                                        probed, idx)
    {
      var block := g.BlockAddr(mf.Addr());
      BlockAddrIsIdempotent(g, mf.Addr());
      var p, i := tags.Probe(block);
      probed, idx := p, i;
      status := ProcessReadOnly(mf, block, time, p, i);
      if status != ReservationFail {
        AccessKeepsConsistency(g, policy, writeAllocate, old(Now()), block, mf, time, p, i);
        ReadStaysClean(g, policy, writeAllocate, old(Now()), block, mf, time, p, i);
        assert Clean(Now().lines);
      }
    }

    method ProcessReadOnly(mf: MemFetch, block: nat, time: nat, probed: RequestStatus, idx: nat)
      returns (status: RequestStatus)
      requires PartsValid() && time < UINT_MAX && g.BlockAddr(mf.Addr()) == block
      requires mf.Request? && !mf.isWrite && !mf.isAtomic && Probed(g, tags.lines[..], block, probed, idx)
      requires Clean(tags.lines[..])
      modifies this, tags.lines, mshrs`data
      ensures PartsValid()
      ensures status == ReservationFail <==>
        probed == ReservationFail || (probed != Hit && old(MissQueueFull(0) || mshrs.Full(block)))
      ensures status != ReservationFail ==> |missQueue| <= |old(missQueue)| + if probed == Hit then 0 else 1
      ensures Now() == if status == ReservationFail then old(Now())
                       else AfterAccess(g, policy, writeAllocate, old(Now()), block, mf, time, probed, idx)
    {
      status := ReservationFail;
      if probed == Hit {
        UpdateHit(block, time, idx, tags.lines[idx].status);
        status := Hit;
      } else if probed != ReservationFail && !MissQueueFull(0) {
        var doMiss, wb, evicted := SendReadRequest(block, mf, time, probed, idx);
        if doMiss {
          assert !wb;
          status := Miss;
        }
      }
    }

    /** Sends the next request to memory. */
    method Cycle(portFull: bool) returns (sent: bool, mf: MemFetch)
      requires Valid()
      modifies this`missQueue
      ensures Valid()
      ensures sent <==> !portFull && old(missQueue) != []
      ensures if sent then [mf] + missQueue == old(missQueue) else missQueue == old(missQueue)
    {
      sent, mf := false, WriteBack(0);
      if missQueue != [] {
        if !portFull {
          sent, mf := true, missQueue[0];
          missQueue := missQueue[1..];
        }
      }
    }

    /** Memory answers a read: its line, reserved since the access, becomes resident, or modified if an
        atomic is waiting for it. */
    method Fill(mf: MemFetch, time: nat)
      requires Valid() && mf in pending
      modifies this`pending, tags.lines, mshrs`currentResponse
      ensures Valid()
      ensures var p := old(pending)[mf];
        && p.index < |old(tags.lines[..])| && p.block in mshrs.data
        && old(tags.lines[..])[p.index].status == Reserved && old(tags.lines[..])[p.index].tag == p.block
        && Now() == AfterFill(old(Now()), mf, old(tags.lines[..])[p.index].(
                      fillTime := time, status := if mshrs.data[p.block].hasAtomic then Modified else Resident))
      ensures var p := old(pending)[mf];
        && p.index < tags.lines.Length && p.block in mshrs.data
        && tags.lines[p.index].status == if AtomicWaits(mshrs.data[p.block]) then Modified else Resident
    {
      var p := pending[mf];
      ghost var line := tags.lines[p.index].(
        fillTime := time, status := if mshrs.data[p.block].hasAtomic then Modified else Resident);
      FillKeepsConsistency(g, Now(), mf, line);
      FillLine(p.index, p.block, time);
      pending := pending - {mf};
      assert Now() == AfterFill(old(Now()), mf, line);
    }

    method FillLine(index: nat, block: nat, time: nat)
      requires PartsValid() && index < tags.lines.Length && tags.lines[index].status == Reserved
      requires block in mshrs.data && block !in mshrs.currentResponse
      modifies tags.lines, mshrs`currentResponse
      ensures PartsValid() && mshrs.currentResponse == old(mshrs.currentResponse) + [block]
      ensures tags.lines[..] == old(tags.lines[..])[index := old(tags.lines[index]).(
        fillTime := time, status := if mshrs.data[block].hasAtomic then Modified else Resident)]
    {
      tags.Fill(index, time);
      var hasAtomic := mshrs.MarkReady(g, block);
      if hasAtomic {
        tags.SetStatus(index, Modified);
      }
    }

    /** Hands back the oldest access of the block filled first: each accepted miss once, in order per block,
        and only after its fill. */
    method NextAccess() returns (mf: MemFetch)
      requires Valid() && mshrs.currentResponse != []
      modifies this`returned, mshrs
      ensures Valid() && mf == old(mshrs.data)[old(mshrs.currentResponse)[0]].list[0]
      ensures g.BlockAddr(mf.Addr()) == old(mshrs.currentResponse)[0]
      ensures Now() == AfterAnswer(old(Now()))
    {
      AnswerKeepsConsistency(g, Now(), mshrs.numEntries, mshrs.maxMerged);
      mf := mshrs.NextAccess(g);
      returned := returned + [mf];
    }

    /** Invalidates the cache. Reads that are outstanding lose their lines, so that consistency survives exactly
        when there are none. */
    method Flush()
      requires Valid()
      modifies this`stranded, tags.lines
      ensures PartsValid()
      ensures forall i :: 0 <= i < tags.lines.Length ==> tags.lines[i] == old(tags.lines[i]).(status := Invalid)
      ensures Valid() <==> pending == map[]
    {
      tags.Flush();
      stranded := {};
      if pending != map[] {
        var mf :| mf in pending;
        assert tags.lines[..][pending[mf].index].status == Invalid;
      }
    }
  }

  // ----- what the invariant means -----

  /** The blocks with a register are those with exactly one outstanding read and those being answered,
      and no block is both. */
  lemma RegistersAreAccountedFor(lines: seq<Line>, data: map<nat, MshrEntry>, responses: seq<nat>,
                                 pending: map<MemFetch, Pending>, b: nat)
    requires ReadsOk(lines, data, responses, pending) && forall c :: c in responses ==> c in data
    ensures b in data <==> b in responses || exists mf :: mf in pending && pending[mf].block == b
    ensures b in responses ==> !exists mf :: mf in pending && pending[mf].block == b
    ensures forall mf, mf' :: mf in pending && mf' in pending && pending[mf].block == b == pending[mf'].block ==>
      mf == mf'
  {
    if b in data && b !in responses {
      var mf :| mf in pending && pending[mf].block == b;
    }
  }

  /** Once no register is in use, every accepted miss has been returned, in order per block. */
  lemma DrainedCacheReturnedEverything(g: Geometry, accepted: seq<MemFetch>, returned: seq<MemFetch>, b: nat)
    requires 0 < g.lineSize && ReturnedInOrder(g, accepted, returned, map[])
    ensures OfBlock(g, accepted, b) == OfBlock(g, returned, b)
  {
    assert OfBlock(g, accepted, b) == OfBlock(g, returned, b) + Waiting(map[], b);
  }

  /** In every reachable state: a line waits for a fill with exactly one read outstanding for it, unless it is
      stranded; and no line is stranded as long as no accepted miss was for a block being answered. */
  lemma ReservedLinesAwaitOneRead(cache: DataCache, i: nat)
    requires cache.Valid() && i < cache.tags.lines.Length
    ensures cache.tags.lines[i].status == Reserved && i !in cache.stranded <==> AwaitsRead(cache.pending, i)
    ensures !cache.missedAnswered ==> (cache.tags.lines[i].status == Reserved <==> AwaitsRead(cache.pending, i))
    ensures forall mf, mf' :: mf in cache.pending && mf' in cache.pending ==>
      cache.pending[mf].index == i == cache.pending[mf'].index ==> mf == mf'
  {
    ghost var lines := cache.tags.lines[..];
    assert lines[i] == cache.tags.lines[i];
    ghost var pending := cache.pending;
    forall mf, mf' | mf in pending && mf' in pending && pending[mf].index == i == pending[mf'].index
      ensures mf == mf'
    {
      assert pending[mf].block == lines[i].tag == pending[mf'].block;
    }
  }

  lemma OnlyLineMisses(g: Geometry, lines: seq<Line>, block: nat, status: RequestStatus, idx: nat)
    requires g.Valid() && |lines| == g.nset * g.assoc == 1 && g.BlockAddr(block) == block
    requires Probed(g, lines, block, status, idx) && lines[0].status != Reserved && !Matches(lines[0], block)
    ensures status == Miss && idx == 0
  {
    assert g.InSet(block, 0);
  }

  lemma AddedFresh(data: map<nat, MshrEntry>, block: nat, mf: MemFetch)
    requires block !in data && !mf.IsAtomic()
    ensures Added(data, block, mf) == data[block := MshrEntry([mf], false)]
  {
    assert [] + [mf] == [mf];
  }

  lemma OneLine(g: Geometry)
    requires g.nset == g.assoc == 1
    ensures g.nset * g.assoc == 1
  {
  }

  /** A cache of one line in which nothing is outstanding, and the only line can be replaced. */
  ghost predicate IdleWithOneLine(cache: DataCache)
    reads cache, cache.tags, cache.tags.lines, cache.mshrs
  {
    && cache.Valid() && cache.tags.lines.Length == 1 && 2 <= cache.missQueueSize
    && cache.missQueue == [] && cache.pending == map[] && cache.returned == []
    && cache.tags.lines[0].status in {Invalid, Resident}
  }

  /** A plain read of a block that is not in the only line misses. */
  method MissInOnlyLine(cache: DataCache, mf: MemFetch, time: nat)
    requires IdleWithOneLine(cache) && time < UINT_MAX && mf.Request? && !mf.isWrite && !mf.isAtomic
    requires var x := cache.g.BlockAddr(mf.Addr()); !Matches(cache.tags.lines[0], x) && !cache.mshrs.Full(x)
    modifies cache, cache.tags.lines, cache.mshrs`data
    ensures cache.Valid()
    ensures cache.missQueue == if old(cache.mshrs.Probe(cache.g.BlockAddr(mf.Addr()))) then [] else [mf]
    ensures cache.Now() == AfterMiss(cache.g, old(cache.Now()), cache.g.BlockAddr(mf.Addr()), mf, time, Miss, 0).(
                             queue := cache.missQueue)
    ensures cache.tags.lines[0].status == Reserved && cache.tags.lines[0].tag == cache.g.BlockAddr(mf.Addr())
  {
    ghost var before, x := cache.tags.lines[..], cache.g.BlockAddr(mf.Addr());
    var status, probed, idx := cache.Access(mf, time);
    BlockAddrIsIdempotent(cache.g, mf.Addr());
    OnlyLineMisses(cache.g, before, x, probed, idx);
    assert !Rejects(cache.policy, cache.writeAllocate, cache.missQueueSize, false, Miss, mf);
    assert WrittenBack(cache.policy, Miss, before, 0) == [];
    assert cache.tags.lines[..][0] == Line(x, x, time, time, 0, Reserved);
  }

  /** The same read, sent to memory and filled. */
  method MissAndFill(cache: DataCache, mf: MemFetch, time: nat)
    requires IdleWithOneLine(cache) && time < UINT_MAX && mf.Request? && !mf.isWrite && !mf.isAtomic
    requires var x := cache.g.BlockAddr(mf.Addr());
      !Matches(cache.tags.lines[0], x) && x !in cache.mshrs.data && |cache.mshrs.data| < cache.mshrs.numEntries
    modifies cache, cache.tags.lines, cache.mshrs
    ensures IdleWithOneLine(cache) && cache.accepted == old(cache.accepted) + [mf]
    ensures var x := cache.g.BlockAddr(mf.Addr());
      && cache.mshrs.data == old(cache.mshrs.data)[x := MshrEntry([mf], false)]
      && cache.mshrs.currentResponse == old(cache.mshrs.currentResponse) + [x]
      && cache.tags.lines[0].tag == x && cache.stranded == old(cache.stranded) - {0}
  {
    AddedFresh(cache.mshrs.data, cache.g.BlockAddr(mf.Addr()), mf);
    MissInOnlyLine(cache, mf, time);
    var sent, out := cache.Cycle(false);
    cache.Fill(mf, time);
  }

  method MissFirst(cache: DataCache, mf: MemFetch, time: nat)
    requires IdleWithOneLine(cache) && cache.tags.lines[0].status == Invalid && time < UINT_MAX
    requires cache.mshrs.data == map[] && cache.mshrs.currentResponse == [] && cache.accepted == []
    requires 2 <= cache.mshrs.numEntries && mf.Request? && !mf.isWrite && !mf.isAtomic
    modifies cache, cache.tags.lines, cache.mshrs
    ensures IdleWithOneLine(cache) && cache.accepted == [mf] && cache.stranded == old(cache.stranded) - {0}
    ensures var x := cache.g.BlockAddr(mf.Addr());
      && cache.mshrs.currentResponse == [x] && cache.mshrs.data == map[x := MshrEntry([mf], false)]
      && cache.tags.lines[0].tag == x
  {
    MissAndFill(cache, mf, time);
  }

  /** Two reads miss and are filled before either is handed back, so that the second evicts the first. */
  method EvictUnanswered(cache: DataCache, a: MemFetch, b: MemFetch, time: nat)
    requires IdleWithOneLine(cache) && cache.tags.lines[0].status == Invalid && time < UINT_MAX
    requires cache.mshrs.data == map[] && cache.mshrs.currentResponse == [] && cache.accepted == []
    requires 2 <= cache.mshrs.numEntries && forall m :: m in {a, b} ==> m.Request? && !m.isWrite && !m.isAtomic
    requires cache.g.BlockAddr(a.Addr()) != cache.g.BlockAddr(b.Addr())
    modifies cache, cache.tags.lines, cache.mshrs
    ensures IdleWithOneLine(cache) && cache.accepted == [a, b] && cache.stranded == old(cache.stranded) - {0}
    ensures var x, y := cache.g.BlockAddr(a.Addr()), cache.g.BlockAddr(b.Addr());
      && cache.mshrs.currentResponse == [x, y] && cache.tags.lines[0].tag == y
      && x in cache.mshrs.data && cache.mshrs.data[x] == MshrEntry([a], false)
  {
    MissFirst(cache, a, time);
    MissAndFill(cache, b, time);
  }

  /** A run that strands a line of a cache of one line: after an eviction that did not wait for the answers, a
      read of the first block merges into the register that is being answered. The line is reserved for it, but
      no read is queued or outstanding. */
  method StrandALine(g: Geometry, policy: WritePolicy, writeAllocate: bool, numEntries: nat, maxMerged: nat,
                     missQueueSize: nat, a: MemFetch, b: MemFetch, c: MemFetch, time: nat)
    returns (cache: DataCache)
    requires g.Valid() && g.nset == g.assoc == 1 && 2 <= numEntries && 2 <= maxMerged && 2 <= missQueueSize
    requires time < UINT_MAX && forall m :: m in {a, b, c} ==> m.Request? && !m.isWrite && !m.isAtomic
    requires g.BlockAddr(a.Addr()) == g.BlockAddr(c.Addr()) != g.BlockAddr(b.Addr())
    ensures cache.Valid() && cache.accepted == [a, b, c] && cache.returned == []
    ensures cache.tags.lines.Length == 1
    ensures cache.tags.lines[0].status == Reserved && cache.tags.lines[0].tag == g.BlockAddr(a.Addr())
    ensures cache.pending == map[] && cache.missQueue == [] && cache.stranded == {0}
  {
    OneLine(g);
    cache := new DataCache(g, policy, writeAllocate, numEntries, maxMerged, missQueueSize);
    EvictUnanswered(cache, a, b, time);
    assert cache.mshrs.currentResponse[0] == g.BlockAddr(a.Addr());
    MissInOnlyLine(cache, c, time);
  }
}
