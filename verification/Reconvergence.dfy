/** Programs made of basic blocks: the analysis of each function, the reconvergence points it yields, and
    the proof that warps executing such programs stay in lockstep. */
module Reconvergence {
  import opened ControlFlowGraph
  import opened FiniteSets
  import opened Options
  import opened Postdominators
  import opened SimtStack
  import opened StateMachine
  import opened WarpRun
  import opened RegionRun

  /** Stands for "reconverge at the return address": the branch's postdominator is the exit block. */
  const RECONVERGE_RETURN_PC: Pc := 0xFFFF_FFFE

  /** A function: the successors of its blocks, their first and last instructions (the exit block, the last
      one, has none), and the postdominators and immediate postdominators found for them. */
  datatype Function = Function(
    succ: seq<set<nat>>, begin: seq<Pc>, end: seq<Pc>, pdom: seq<set<nat>>, ipdom: seq<int>)
  {

    ghost predicate Shaped() {
      && 2 <= |succ| == |pdom| == |ipdom| && |begin| == |end| == |succ| - 1
      && (forall b :: 0 <= b < |succ| - 1 ==> 0 <= ipdom[b] < |succ|)
      && forall b, s :: 0 <= b < |succ| - 1 && s in succ[b] ==> s < |succ|
    }

    function Exit(): nat
      requires Shaped()
    {
      |succ| - 1
    }

    /** Block `b` runs strictly inside the region of block `r`. */
    ghost predicate Inside(b: nat, r: nat)
      requires Shaped()
    {
      b < Exit() && r in pdom[b] && r != b
    }

    /** What reconvergence needs of the blocks: regions are closed under control flow, none leads to the
        exit, and they nest at the immediate postdominators. */
    ghost predicate BlocksNest()
      requires Shaped()
    {
      && (forall b: nat, s: nat, r: nat :: Inside(b, r) && s in succ[b] && s != r ==> r in pdom[s])
      && (forall b: nat, r: nat :: Inside(b, r) && Exit() in succ[b] ==> r == Exit())
      && (forall b :: 0 <= b < Exit() ==> Inside(b, ipdom[b]))
      && (forall b: nat, r: nat :: Inside(b, r) ==> r in pdom[ipdom[b]])
      && forall b: nat, r: nat :: Inside(b, r) && r in succ[b] ==> ipdom[b] == r
    }

    /** The analysis of the function has been run on a graph in which every block reaches the exit. */
    ghost predicate Analysed() {
      var g := Graph(succ);
      && g.Valid() && g.AllReachExit()
      && |pdom| == |ipdom| == |succ| && |begin| == |end| == |succ| - 1
      && (forall n :: 0 <= n < |succ| ==> pdom[n] == PostdominatorsOf(g, n))
      && forall n :: 0 <= n < g.Exit() ==> 0 <= ipdom[n] && g.ImmediatelyPostdominates(ipdom[n], n)
    }
  }

  /** Runs the two analyses on the blocks of a function. */
  method Analyse(succ: seq<set<nat>>, begin: seq<Pc>, end: seq<Pc>) returns (f: Function)
    requires Graph(succ).Valid() && Graph(succ).AllReachExit() && |begin| == |end| == |succ| - 1
    ensures f.Analysed() && f.succ == succ && f.begin == begin && f.end == end
  {
    var info := new FunctionInfo(Graph(succ));
    info.FindPostdominators();
    info.FindImmediatePostdominators();
    f := Function(succ, begin, end, info.postdominatorIds, info.immediatePostdominatorId);
  }

  /** The results of the analysis give regions that nest. */
  lemma AnalysedBlocksNest(f: Function)
    requires f.Analysed()
    ensures f.Shaped() && f.BlocksNest()
  {
    var g := Graph(f.succ);
    forall b | 0 <= b < g.Exit()
      ensures g.StrictlyPostdominates(f.ipdom[b], b)
    {
    }
    forall b: nat, r: nat | f.Inside(b, r)
      ensures g.StrictlyPostdominates(r, b) && r in f.pdom[f.ipdom[b]]
      ensures forall s :: s in f.succ[b] && s != r ==> r in f.pdom[s]
      ensures r in f.succ[b] ==> f.ipdom[b] == r
      ensures f.Exit() in f.succ[b] ==> r == f.Exit()
    {
      forall s | s in f.succ[b]
        ensures r in f.pdom[s]
      {
        SuccessorIsPostdominated(g, r, b, s);
      }
      if r in f.succ[b] {
        PostdominatingSuccessorIsImmediate(g, r, b, f.ipdom[b]);
      }
      if f.Exit() in f.succ[b] {
        assert g.LeadsToExit(b, [b, g.Exit()]);
      }
    }
  }

  // ----- reconvergence points -----

  datatype ReconvergencePair = ReconvergencePair(sourcePc: Pc, targetPc: Pc)

  ghost predicate EndsInBranch(f: Function, ops: map<Pc, OpType>, b: nat) {
    b < |f.end| && f.end[b] in ops && ops[f.end[b]] == Branch
  }

  /** The pair of a block: its branch and the start of its immediate postdominator. */
  function PairOf(f: Function, b: nat): ReconvergencePair
    requires b < |f.end| && b < |f.ipdom|
  {
    ReconvergencePair(f.end[b], if 0 <= f.ipdom[b] < |f.begin| then f.begin[f.ipdom[b]] else RECONVERGE_RETURN_PC)
  }

  /** The pairs of exactly the first `n` blocks that end in a branch. */
  ghost predicate ListsPairs(f: Function, ops: map<Pc, OpType>, n: nat, pairs: seq<ReconvergencePair>)
    requires n <= |f.end| <= |f.ipdom|
  {
    && (forall b :: 0 <= b < n && EndsInBranch(f, ops, b) ==> PairOf(f, b) in pairs)
    && forall x :: x in pairs ==> exists b :: 0 <= b < n && EndsInBranch(f, ops, b) && x == PairOf(f, b)
  }

  method GetReconvergencePairs(f: Function, ops: map<Pc, OpType>) returns (pairs: seq<ReconvergencePair>)
    requires |f.end| <= |f.ipdom| && forall b :: 0 <= b < |f.end| ==> 0 <= f.ipdom[b]
    ensures ListsPairs(f, ops, |f.end|, pairs)
  {
    pairs := [];
    for b := 0 to |f.end|
      invariant ListsPairs(f, ops, b, pairs)
    {
      if f.end[b] in ops && ops[f.end[b]] == Branch {
        var target := RECONVERGE_RETURN_PC;
        if f.ipdom[b] < |f.begin| {
          target := f.begin[f.ipdom[b]];
        }
        assert EndsInBranch(f, ops, b);
        pairs := pairs + [ReconvergencePair(f.end[b], target)];
      }
    }
  }

  /** The target of the first pair of an instruction, or none. */
  method GetConvergePoint(pairs: seq<ReconvergencePair>, pc: Pc) returns (r: Pc)
    ensures ReconvergencePair(pc, r) in pairs || (r == NULL_PC && forall x :: x in pairs ==> x.sourcePc != pc)
  {
    for i := 0 to |pairs|
      invariant forall j :: 0 <= j < i ==> pairs[j].sourcePc != pc
    {
      if pairs[i].sourcePc == pc {
        return pairs[i].targetPc;
      }
    }
    return NULL_PC;
  }

  // ----- programs -----

  /** Where an instruction is. */
  datatype Place = Place(func: nat, block: nat)

  datatype Program = Program(funcs: seq<Function>, places: map<Pc, Place>, ops: map<Pc, OpType>, sizes: map<Pc, nat>) {

    ghost predicate Valid() {
      && (forall f :: 0 <= f < |funcs| ==> ValidFunction(f))
      && (forall pc :: pc in places ==> ValidPlace(pc))
      && places.Keys == ops.Keys == sizes.Keys
    }

    /** Every function has been analysed, and the instructions are where its blocks say. */
    ghost predicate Analysed() {
      && (forall f :: 0 <= f < |funcs| ==> AnalysedFunction(f))
      && (forall pc :: pc in places ==> ValidPlace(pc))
      && places.Keys == ops.Keys == sizes.Keys
    }

    ghost predicate AnalysedFunction(f: nat)
      requires f < |funcs|
    {
      funcs[f].Analysed() && (funcs[f].Shaped() ==> Laid(f))
    }

    ghost predicate ValidFunction(f: nat)
      requires f < |funcs|
    {
      funcs[f].Shaped() && funcs[f].BlocksNest() && Laid(f)
    }

    /** The instructions of a function are where its blocks say. */
    ghost predicate Laid(f: nat)
      requires f < |funcs| && funcs[f].Shaped()
    {
      forall b :: 0 <= b < funcs[f].Exit() ==>
        && funcs[f].begin[b] in places && places[funcs[f].begin[b]] == Place(f, b)
        && funcs[f].end[b] in places && places[funcs[f].end[b]] == Place(f, b) && funcs[f].end[b] in ops
        // Only a branch chooses between blocks of the function, and it has at most two targets.
        && |funcs[f].succ[b]| <= 2
        && (ops[funcs[f].end[b]] != Branch ==> |funcs[f].succ[b] - {funcs[f].Exit()}| <= 1)
    }

    ghost predicate ValidPlace(pc: Pc)
      requires pc in places
    {
      pc != NULL_PC && places[pc].func < |funcs| && places[pc].block < |funcs[places[pc].func].begin|
    }

    ghost function At(pc: Pc): Function
      requires Valid() && pc in places
    {
      funcs[places[pc].func]
    }

    ghost function BlockOf(pc: Pc): (b: nat)
      requires Valid() && pc in places
      ensures At(pc).Shaped() && b < At(pc).Exit()
    {
      assert ValidPlace(pc) && ValidFunction(places[pc].func);
      places[pc].block
    }

    ghost predicate IsLast(pc: Pc)
      requires Valid() && pc in places
    {
      assert ValidPlace(pc) && ValidFunction(places[pc].func);
      pc == At(pc).end[BlockOf(pc)]
    }

    /** From the last instruction of a block, to the first ones of its successors in the function; from any
        other instruction, to the next one. */
    ghost function NextOf(pc: Pc): set<Pc>
      requires Valid() && pc in places
    {
      assert ValidPlace(pc) && ValidFunction(places[pc].func);
      if IsLast(pc) then set b | b in At(pc).succ[BlockOf(pc)] && b < At(pc).Exit() :: At(pc).begin[b]
      else
        var next := NotTakenPc(pc, sizes[pc]);
        if next in places && places[next] == places[pc] then {next} else {}
    }

    /** For a branch that ends a block, the start of the block's immediate postdominator. */
    ghost function ReconvergencePc(pc: Pc): Pc
      requires Valid() && pc in places
    {
      assert ValidPlace(pc) && ValidFunction(places[pc].func);
      if ops[pc] == Branch && IsLast(pc) then PairOf(At(pc), BlockOf(pc)).targetPc else NULL_PC
    }

    ghost predicate InRegion(pc: Pc, r: Pc)
      requires Valid()
    {
      && pc in places && r in places && places[pc].func == places[r].func
      && (assert ValidPlace(pc) && ValidPlace(r) && ValidFunction(places[pc].func);
          r == At(pc).begin[BlockOf(r)] && At(pc).Inside(BlockOf(pc), BlockOf(r)))
    }

    ghost predicate LeadsToExit(pc: Pc)
      requires Valid()
    {
      pc in places
      && (assert ValidPlace(pc) && ValidFunction(places[pc].func); At(pc).Exit() in At(pc).succ[BlockOf(pc)])
    }

    /** The immediate postdominator of the block is not the exit block. */
    ghost predicate ReconvergesInside(pc: Pc)
      requires Valid()
    {
      pc in places
      && (assert ValidPlace(pc) && ValidFunction(places[pc].func); At(pc).ipdom[BlockOf(pc)] != At(pc).Exit())
    }
  }

  /** The results of the analysis make a program with its instructions in place valid. */
  lemma AnalysedProgramsAreValid(p: Program)
    requires p.Analysed()
    ensures p.Valid()
  {
    forall f | 0 <= f < |p.funcs|
      ensures p.ValidFunction(f)
    {
      assert p.AnalysedFunction(f);
      AnalysedBlocksNest(p.funcs[f]);
    }
  }

  /** The reconvergence PC that the pairs of a function give each of its instructions. */
  method ConvergePointInFunction(p: Program, pc: Pc) returns (r: Pc)
    requires p.Valid() && pc in p.places
    ensures r == p.ReconvergencePc(pc)
  {
    assert p.ValidPlace(pc) && p.ValidFunction(p.places[pc].func);
    var f := p.funcs[p.places[pc].func];
    var pairs := GetReconvergencePairs(f, p.ops);
    r := GetConvergePoint(pairs, pc);
    if ReconvergencePair(pc, r) in pairs {
      ghost var b :| 0 <= b < |f.end| && EndsInBranch(f, p.ops, b) && ReconvergencePair(pc, r) == PairOf(f, b);
      assert p.places[f.end[b]] == Place(p.places[pc].func, b);
    } else {
      assert EndsInBranch(f, p.ops, p.BlockOf(pc)) ==> PairOf(f, p.BlockOf(pc)) in pairs;
    }
  }

  ghost function ControlFlowOf(p: Program): ControlFlow
    requires p.Valid()
  {
    ControlFlow(
      (pc: Pc) =>
        if pc in p.places then Instr(p.ops[pc], p.sizes[pc], p.ReconvergencePc(pc)) else Instr(Plain, 0, NULL_PC),
      (pc: Pc) => if pc in p.places then p.NextOf(pc) else {},
      (pc: Pc) => if pc in p.places then NotTakenPc(pc, p.sizes[pc]) else NULL_PC,
      (pc: Pc) =>
        exists f :: 0 <= f < |p.funcs| && p.funcs[f].begin != [] && pc == p.funcs[f].begin[0] && pc in p.places,
      (pc: Pc) => p.LeadsToExit(pc),
      (pc: Pc, r: Pc) => p.InRegion(pc, r),
      (pc: Pc) => p.ReconvergesInside(pc),
      (pc: Pc) => pc in p.places)
  }

  // ----- the regions of a program -----

  lemma NextIsLocated(p: Program, pc: Pc, q: Pc)
    requires p.Valid() && pc in p.places && q in p.NextOf(pc)
    ensures q in p.places && p.places[q].func == p.places[pc].func
    ensures p.IsLast(pc) ==>
      && p.BlockOf(q) in p.At(pc).succ[p.BlockOf(pc)] && p.BlockOf(q) < |p.At(pc).begin|
      && q == p.At(pc).begin[p.BlockOf(q)]
    ensures !p.IsLast(pc) ==> q == NotTakenPc(pc, p.sizes[pc]) && p.places[q] == p.places[pc]
  {
    assert p.ValidPlace(pc) && p.ValidFunction(p.places[pc].func);
  }

  lemma NextStaysInRegion(p: Program, pc: Pc, r: Pc, q: Pc)
    requires p.Valid() && p.InRegion(pc, r) && q in p.NextOf(pc)
    ensures q == r || p.InRegion(q, r)
  {
    assert p.ValidPlace(pc) && p.ValidPlace(r) && p.ValidFunction(p.places[pc].func);
    NextIsLocated(p, pc, q);
  }

  lemma NoExitInRegion(p: Program, pc: Pc, r: Pc)
    requires p.Valid() && p.InRegion(pc, r)
    ensures !p.LeadsToExit(pc)
  {
    assert p.ValidPlace(pc) && p.ValidPlace(r) && p.ValidFunction(p.places[pc].func);
  }

  /** An instruction with two next PCs is the branch that ends its block. */
  lemma SplitsAtBranch(p: Program, pc: Pc, q: Pc, q': Pc)
    requires p.Valid() && pc in p.places && q in p.NextOf(pc) && q' in p.NextOf(pc) && q != q'
    ensures p.IsLast(pc) && p.ops[pc] == Branch
  {
    assert p.ValidPlace(pc) && p.ValidFunction(p.places[pc].func);
    NextIsLocated(p, pc, q);
    NextIsLocated(p, pc, q');
    if p.IsLast(pc) {
      var f, b := p.At(pc), p.BlockOf(pc);
      TwoElements(f.succ[b] - {f.Exit()}, p.BlockOf(q), p.BlockOf(q'));
      assert f.end[b] == pc;
    }
  }

  /** Such a branch, reconverging inside the function, opens a region for both its sides. */
  lemma BranchOpensRegion(p: Program, pc: Pc, q: Pc, q': Pc)
    requires p.Valid() && pc in p.places && q in p.NextOf(pc) && q' in p.NextOf(pc) && q != q'
    requires p.ReconvergesInside(pc)
    ensures var r := p.ReconvergencePc(pc); r in p.places && (q == r || p.InRegion(q, r))
    ensures var d := p.At(pc).ipdom[p.BlockOf(pc)];
      0 <= d && p.places[p.ReconvergencePc(pc)] == Place(p.places[pc].func, d)
  {
    assert p.ValidPlace(pc) && p.ValidFunction(p.places[pc].func);
    SplitsAtBranch(p, pc, q, q');
    NextIsLocated(p, pc, q);
    var f, b := p.At(pc), p.BlockOf(pc);
    assert f.Inside(b, f.ipdom[b]);
  }

  lemma BranchRegionNests(p: Program, pc: Pc, outer: Pc, q: Pc, q': Pc)
    requires p.Valid() && p.InRegion(pc, outer) && q in p.NextOf(pc) && q' in p.NextOf(pc) && q != q'
    requires p.ReconvergesInside(pc)
    ensures var r := p.ReconvergencePc(pc); (r == outer || p.InRegion(r, outer)) && (q == outer ==> r == outer)
  {
    assert p.ValidPlace(pc) && p.ValidPlace(outer) && p.ValidFunction(p.places[pc].func);
    SplitsAtBranch(p, pc, q, q');
    BranchOpensRegion(p, pc, q, q');
    NextIsLocated(p, pc, q);
  }

  lemma ImageSize(s: set<nat>, f: seq<Pc>)
    requires forall b :: b in s ==> b < |f|
    ensures |set b | b in s :: f[b]| <= |s|
  {
    if s != {} {
      var x :| x in s;
      ImageSize(s - {x}, f);
      assert (set b | b in s :: f[b]) == (set b | b in s - {x} :: f[b]) + {f[x]};
    }
  }

  lemma AtMostTwoNext(p: Program, pc: Pc)
    requires p.Valid() && pc in p.places
    ensures |p.NextOf(pc)| <= 2
  {
    assert p.ValidPlace(pc) && p.ValidFunction(p.places[pc].func);
    if p.IsLast(pc) {
      var f, b := p.At(pc), p.BlockOf(pc);
      var inner := set s | s in f.succ[b] && s < f.Exit();
      SubsetSize(inner, f.succ[b]);
      ImageSize(inner, f.begin);
      forall x | x in p.NextOf(pc)
        ensures x in set s | s in inner :: f.begin[s]
      {
        var s :| s in f.succ[b] && s < f.Exit() && x == f.begin[s];
        assert s in inner;
      }
      SubsetSize(p.NextOf(pc), set s | s in inner :: f.begin[s]);
    }
  }

  lemma RegionsAreClosed(p: Program)
    requires p.Valid()
    ensures var cf := ControlFlowOf(p);
      && (forall pc, r, q :: cf.inside(pc, r) && q in cf.next(pc) ==> q == r || cf.inside(q, r))
      && (forall pc, r :: cf.inside(pc, r) ==> !cf.exits(pc))
  {
    var cf := ControlFlowOf(p);
    forall pc, r, q | cf.inside(pc, r) && q in cf.next(pc)
      ensures q == r || cf.inside(q, r)
    {
      NextStaysInRegion(p, pc, r, q);
    }
    forall pc, r | cf.inside(pc, r)
      ensures !cf.exits(pc)
    {
      NoExitInRegion(p, pc, r);
    }
  }

  lemma BranchesOpenRegions(p: Program)
    requires p.Valid()
    ensures var cf := ControlFlowOf(p);
      forall pc, q, q' :: cf.Splits(pc, q, q') ==>
        var r := cf.code(pc).recvgPc; cf.located(r) && (q == r || cf.inside(q, r))
  {
    var cf := ControlFlowOf(p);
    forall pc, q, q' | cf.Splits(pc, q, q')
      ensures var r := cf.code(pc).recvgPc; cf.located(r) && (q == r || cf.inside(q, r))
    {
      BranchOpensRegion(p, pc, q, q');
    }
  }

  lemma BranchRegionsNest(p: Program)
    requires p.Valid()
    ensures var cf := ControlFlowOf(p);
      && (forall pc, r, q, q' :: cf.inside(pc, r) && cf.Splits(pc, q, q') ==>
            var r' := cf.code(pc).recvgPc; r' == r || cf.inside(r', r))
      && (forall pc, r, q :: cf.inside(pc, r) && cf.Splits(pc, r, q) ==> cf.code(pc).recvgPc == r)
  {
    var cf := ControlFlowOf(p);
    forall pc, r, q, q' | cf.inside(pc, r) && cf.Splits(pc, q, q')
      ensures var r' := cf.code(pc).recvgPc; r' == r || cf.inside(r', r)
    {
      BranchRegionNests(p, pc, r, q, q');
    }
    forall pc, r, q | cf.inside(pc, r) && cf.Splits(pc, r, q)
      ensures cf.code(pc).recvgPc == r
    {
      BranchRegionNests(p, pc, r, r, q);
    }
  }

  /** The control flow of a valid program has nesting regions. */
  lemma ProgramsNest(p: Program)
    requires p.Valid()
    ensures ControlFlowOf(p).Valid()
  {
    var cf := ControlFlowOf(p);
    RegionsAreClosed(p);
    BranchesOpenRegions(p);
    BranchRegionsNest(p);
    forall pc | cf.located(pc)
      ensures pc != NULL_PC && |cf.next(pc)| <= 2
    {
      assert p.ValidPlace(pc);
      AtMostTwoNext(p, pc);
    }
    forall pc, q | q in cf.next(pc)
      ensures cf.located(q)
    {
      NextIsLocated(p, pc, q);
    }
  }

  /** The control flow that the analyses give a program. */
  ghost function AnalysedFlow(p: Program): ControlFlow
    requires p.Analysed()
  {
    AnalysedProgramsAreValid(p);
    ControlFlowOf(p)
  }

  /** A warp that is launched with the lanes of a mask, all of them at the start PC. */
  ghost predicate Launches(p: Program, lanes: LaneRuns, warpSize: nat, startPc: Pc, mask: set<nat>) {
    && startPc in p.places && mask != {} && mask <= Below(warpSize)
    && forall l: nat :: l < warpSize ==> lanes(l, 0) == if l in mask then Some(LaneState(startPc, [])) else None
  }

  /** A warp of a program whose functions have been analysed: in every run in which calls do not split the
      warp and branches reconverge inside their function, no live lane is lost, every live lane is held by
      an entry at that lane's own PC, and every lane has executed a beginning of its solo run. */
  lemma WarpsReconverge(p: Program, lanes: LaneRuns, warpSize: nat, startPc: Pc, mask: set<nat>, run: seq<Warp>)
    requires p.Analysed() && LegalLanes(AnalysedFlow(p), lanes) && Launches(p, lanes, warpSize, startPc, mask)
    requires IsRun(StepOf(AnalysedFlow(p), lanes), run) && run[0] == Launched(warpSize, startPc, mask)
    requires forall i :: 0 <= i < |run| - 1 ==> Convergent(AnalysedFlow(p), lanes, run[i])
    ensures forall i :: 0 <= i < |run| ==> InLockstep(SoloOf(lanes), run[i])
  {
    AnalysedProgramsAreValid(p);
    ProgramsNest(p);
    LaunchIsStructured(AnalysedFlow(p), lanes, warpSize, startPc, mask);
    ConvergentRunsStayInLockstep(AnalysedFlow(p), lanes, run);
  }

  /** When moreover every lane alone would finish, the warp finishes as well, with every lane having executed
      exactly its solo run. */
  lemma WarpsComplete(p: Program, lanes: LaneRuns, warpSize: nat, startPc: Pc, mask: set<nat>, lengths: seq<nat>)
    returns (run: seq<Warp>)
    requires p.Analysed() && LegalLanes(AnalysedFlow(p), lanes) && Launches(p, lanes, warpSize, startPc, mask)
    requires Finite(SoloOf(lanes), lengths) && |lengths| == warpSize
    requires forall w :: Reaches(StepOf(AnalysedFlow(p), lanes), Launched(warpSize, startPc, mask), w) ==>
      Convergent(AnalysedFlow(p), lanes, w)
    ensures IsRun(StepOf(AnalysedFlow(p), lanes), run) && run[0] == Launched(warpSize, startPc, mask)
    ensures |run| <= 1 + Work(run[0], lengths)
    ensures run[|run| - 1].stack == [] && Complete(SoloOf(lanes), run[|run| - 1], lengths)
  {
    AnalysedProgramsAreValid(p);
    ProgramsNest(p);
    run := LaunchedRunsComplete(AnalysedFlow(p), lanes, warpSize, startPc, mask, lengths);
  }
}
