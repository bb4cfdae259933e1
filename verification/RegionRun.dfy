/** Warps that reconverge by region: if branches reconverge at regions that nest, every run of the warp,
    calls and returns included, meets the nesting condition of the stack, so its lanes run in lockstep. */
module RegionRun {
  import opened FiniteSets
  import opened Options
  import opened SimtStack
  import opened StateMachine
  import opened WarpRun

  /** The control flow that a warp executes, reduced to what reconvergence depends on. */
  datatype ControlFlow = ControlFlow(
    /** What the stack is told about the instruction at a PC. */
    code: Pc -> Instr,
    /** The PCs that may follow an instruction within its function. */
    next: Pc -> set<Pc>,
    /** The instruction after a call. */
    fall: Pc -> Pc,
    /** The first instructions of functions. */
    entry: Pc -> bool,
    /** Instructions whose block leads to the exit of the function. */
    exits: Pc -> bool,
    /** `inside(pc, r)`: every path from `pc` to the exit of the function goes on to pass the later block at `r`. */
    inside: (Pc, Pc) -> bool,
    /** Branches that reconverge within the function. */
    convergent: Pc -> bool,
    located: Pc -> bool)
  {
    ghost predicate Splits(pc: Pc, q: Pc, q': Pc) {
      q in next(pc) && q' in next(pc) && q != q' && convergent(pc)
    }

    /** Regions are closed under control flow, none leads to the exit, and a branch that splits starts a
        region nested in the one it runs in. */
    ghost predicate RegionsNest() {
      && (forall pc, r, q :: inside(pc, r) && q in next(pc) ==> q == r || inside(q, r))
      && (forall pc, r :: inside(pc, r) ==> !exits(pc))
      && (forall pc, q, q' :: Splits(pc, q, q') ==>
            var r := code(pc).recvgPc; located(r) && (q == r || inside(q, r)))
      && (forall pc, r, q, q' :: inside(pc, r) && Splits(pc, q, q') ==>
            var r' := code(pc).recvgPc; r' == r || inside(r', r))
      && (forall pc, r, q :: inside(pc, r) && Splits(pc, r, q) ==> code(pc).recvgPc == r)
    }

    ghost predicate Valid() {
      && RegionsNest()
      && (forall pc :: located(pc) ==> pc != NULL_PC)
      && (forall pc :: entry(pc) ==> located(pc))
      && (forall pc, q :: q in next(pc) ==> located(q))
      && (forall pc, r :: inside(pc, r) ==> located(pc) && located(r))
      && (forall pc :: |next(pc)| <= 2)
    }
  }

  // ----- lanes -----

  /** A lane's own control state: its PC and the return addresses on its call stack. */
  datatype LaneState = LaneState(pc: Pc, rets: seq<Pc>)

  /** The control states that each lane goes through when run alone. */
  type LaneRuns = (nat, nat) -> Option<LaneState>

  ghost function SoloOf(lanes: LaneRuns): Solo {
    (l: nat, k: nat) => if lanes(l, k).Some? then Some(lanes(l, k).value.pc) else None
  }

  /** One step of a lane. Calls and, inside a call, returns are unconditional; a return leaves the function
      through a block that leads to the exit. */
  ghost predicate LaneStep(cf: ControlFlow, st: LaneState, st': LaneState) {
    if cf.code(st.pc).op == CallOps then
      cf.entry(st'.pc) && cf.fall(st.pc) in cf.next(st.pc) && st'.rets == st.rets + [cf.fall(st.pc)]
    else if cf.code(st.pc).op == RetOps && st.rets != [] then
      cf.exits(st.pc) && st' == LaneState(st.rets[|st.rets| - 1], st.rets[..|st.rets| - 1])
    else st'.pc in cf.next(st.pc) && st'.rets == st.rets
  }

  ghost predicate LegalLanes(cf: ControlFlow, lanes: LaneRuns) {
    && (forall l: nat, k: nat :: lanes(l, k).None? ==> lanes(l, k + 1).None?)
    && (forall l: nat, k: nat :: lanes(l, k).Some? ==> cf.located(lanes(l, k).value.pc))
    && (forall l: nat, k: nat :: lanes(l, k).Some? && lanes(l, k + 1).Some? ==>
          LaneStep(cf, lanes(l, k).value, lanes(l, k + 1).value))
  }

  // ----- the invariant -----

  /** An entry that reconverges at R runs inside the region of R. */
  ghost predicate EntryInRegion(cf: ControlFlow, below: seq<Entry>, e: Entry) {
    && cf.located(e.pc)
    && (e.kind.Normal? && e.recvgPc != NULL_PC ==> cf.inside(e.pc, e.recvgPc))
    && (e.kind.Normal? && e.recvgPc == NULL_PC ==> below == [])
    && (e.kind.Call? ==> e.recvgPc == NULL_PC)
  }

  ghost predicate InRegions(cf: ControlFlow, s: seq<Entry>) {
    s == [] || (InRegions(cf, s[..|s| - 1]) && EntryInRegion(cf, s[..|s| - 1], s[|s| - 1]))
  }

  ghost predicate ReturnsTo(cf: ControlFlow, callPc: Pc, ret: Pc) {
    ret == cf.fall(callPc) && ret in cf.next(callPc)
  }

  /** The call entries that hold a lane are its call stack: each return address is what follows the call
      instruction at which the entry below is waiting. */
  ghost predicate CallStack(cf: ControlFlow, s: seq<Entry>, l: nat, rets: seq<Pc>) {
    if s == [] then rets == []
    else
      var below, e := s[..|s| - 1], s[|s| - 1];
      if l !in e.mask || e.kind.Normal? then CallStack(cf, below, l, rets)
      else
        && rets != [] && below != [] && ReturnsTo(cf, below[|below| - 1].pc, rets[|rets| - 1])
        && CallStack(cf, below, l, rets[..|rets| - 1])
  }

  ghost predicate CallStacks(cf: ControlFlow, s: seq<Entry>, lanes: LaneRuns, count: seq<nat>) {
    forall l :: l in Live(SoloOf(lanes), count) ==> CallStack(cf, s, l, lanes(l, count[l]).value.rets)
  }

  ghost predicate Structured(cf: ControlFlow, lanes: LaneRuns, w: Warp) {
    && InLockstep(SoloOf(lanes), w)
    && InRegions(cf, w.stack)
    && CallStacks(cf, w.stack, lanes, w.count)
  }

  /** The PCs that the live lanes of the top entry move to. */
  ghost function NextPaths(lanes: LaneRuns, w: Warp): set<Pc>
    requires w.stack != []
  {
    var count := Counted(w.count, Executing(SoloOf(lanes), w));
    NextPcs(w.stack[|w.stack| - 1].mask * Live(SoloOf(lanes), count), Pcs(SoloOf(lanes), count))
  }

  /** What a run is asked for: a call does not split the warp, and a branch that splits it reconverges
      within the function. */
  ghost predicate Convergent(cf: ControlFlow, lanes: LaneRuns, w: Warp) {
    w.stack != [] ==>
      var pc := w.stack[|w.stack| - 1].pc;
      && (cf.code(pc).op == CallOps ==> |NextPaths(lanes, w)| <= 1)
      && (|NextPaths(lanes, w)| == 2 ==> cf.convergent(pc))
  }

  // ----- one step of the warp -----

  lemma LegalLanesAreWellFormed(cf: ControlFlow, lanes: LaneRuns)
    requires cf.Valid() && LegalLanes(cf, lanes)
    ensures WellFormed(SoloOf(lanes))
  {
  }

  /** What a lane of the top entry that is still live after the step has done. */
  lemma ExecutedStep(cf: ControlFlow, lanes: LaneRuns, w: Warp, l: nat)
    requires cf.Valid() && LegalLanes(cf, lanes) && w.stack != []
    requires Tracks(w.stack, Pcs(SoloOf(lanes), w.count), Live(SoloOf(lanes), w.count))
    requires l in w.stack[|w.stack| - 1].mask * Live(SoloOf(lanes), Counted(w.count, Executing(SoloOf(lanes), w)))
    ensures l in Executing(SoloOf(lanes), w) && l < |w.count|
    ensures lanes(l, w.count[l]).Some? && lanes(l, w.count[l] + 1).Some?
    ensures lanes(l, w.count[l]).value.pc == w.stack[|w.stack| - 1].pc
    ensures LaneStep(cf, lanes(l, w.count[l]).value, lanes(l, w.count[l] + 1).value)
  {
    var solo := SoloOf(lanes);
    LegalLanesAreWellFormed(cf, lanes);
    LiveLanesShrink(solo, w.count, Executing(solo, w));
    ExecutesOwnInstruction(solo, w, l);
    assert Counted(w.count, Executing(solo, w))[l] == w.count[l] + 1;
    assert solo(l, w.count[l] + 1).Some?;
  }

  /** A lane leaves an ordinary entry, or a call entry without a return, by the control flow of its function. */
  lemma OrdinaryStepFlows(cf: ControlFlow, s: seq<Entry>, l: nat, st: LaneState, st': LaneState)
    requires cf.Valid() && s != [] && InRegions(cf, s) && l in s[|s| - 1].mask
    requires st.pc == s[|s| - 1].pc && LaneStep(cf, st, st') && CallStack(cf, s, l, st.rets)
    requires cf.code(st.pc).op != CallOps && !(cf.code(st.pc).op == RetOps && s[|s| - 1].kind.Call?)
    ensures st'.pc in cf.next(st.pc) && st'.rets == st.rets
  {
    if cf.code(st.pc).op == RetOps && s[|s| - 1].recvgPc == NULL_PC {
      assert CallStack(cf, s[..|s| - 1], l, st.rets);
    }
  }

  /** A return in a call entry goes to the instruction after the call. */
  lemma ReturnStep(cf: ControlFlow, s: seq<Entry>, l: nat, st: LaneState, st': LaneState)
    requires cf.Valid() && s != [] && InRegions(cf, s) && l in s[|s| - 1].mask
    requires st.pc == s[|s| - 1].pc && LaneStep(cf, st, st') && CallStack(cf, s, l, st.rets)
    requires cf.code(st.pc).op == RetOps && s[|s| - 1].kind.Call?
    ensures 2 <= |s| && ReturnsTo(cf, s[|s| - 2].pc, st'.pc) && CallStack(cf, s[..|s| - 1], l, st'.rets)
  {
  }

  /** The nesting condition of the stack holds for a step by the control flow of a function. */
  lemma FlowsNest(cf: ControlFlow, below: seq<Entry>, top: Entry, targets: set<Pc>)
    requires cf.Valid() && EntryInRegion(cf, below, top) && targets <= cf.next(top.pc)
    requires |targets| == 2 ==> cf.convergent(top.pc)
    ensures Nested(top, targets, cf.code(top.pc).recvgPc)
  {
    if |targets| == 2 {
      var q :| q in targets && (top.recvgPc in targets ==> q == top.recvgPc);
      assert targets != {q} by {
        assert |{q}| == 1;
      }
      var q' :| q' in targets && q' != q;
      assert cf.Splits(top.pc, q, q') && cf.located(q);
      if top.kind.Normal? && top.recvgPc in targets {
        assert cf.inside(top.pc, top.recvgPc);
      }
    }
  }

  // ----- regions and call stacks after a step -----

  lemma RegionPush(cf: ControlFlow, s: seq<Entry>, e: Entry)
    requires cf.Valid() && InRegions(cf, s) && EntryInRegion(cf, s, e)
    ensures InRegions(cf, s + [e])
  {
    assert (s + [e])[..|s|] == s;
  }

  lemma RegionPushSide(cf: ControlFlow, s: seq<Entry>, top: Entry, mask: set<nat>, next: seq<Pc>, q: Pc, recvgPc: Pc)
    requires cf.Valid() && InRegions(cf, s) && recvgPc != NULL_PC && (q == recvgPc || cf.inside(q, recvgPc))
    requires cf.located(q)
    ensures InRegions(cf, s + Side(top, mask, next, q, recvgPc))
  {
    if Side(top, mask, next, q, recvgPc) == [] {
      assert s + [] == s;
    } else {
      RegionPush(cf, s, Entry(q, Lanes(mask, next, q), recvgPc, Normal));
    }
  }

  lemma DivergedStaysInRegions(cf: ControlFlow, s: seq<Entry>, mask: set<nat>, next: seq<Pc>, q: Pc, q': Pc)
    requires cf.Valid() && s != [] && InRegions(cf, s) && cf.Splits(s[|s| - 1].pc, q, q')
    ensures InRegions(cf, Diverged(s[..|s| - 1], s[|s| - 1], mask, next, q, q', cf.code(s[|s| - 1].pc).recvgPc))
  {
    var top, below := s[|s| - 1], s[..|s| - 1];
    var r := cf.code(top.pc).recvgPc;
    assert cf.Splits(top.pc, q', q);
    var first, second := Side(top, mask, next, q, r), Side(top, mask, next, q', r);
    var base := below;
    if r != top.recvgPc {
      base := below + [top.(pc := r)];
      RegionPush(cf, below, top.(pc := r));
      assert base + first + second == base + (first + second);
    } else {
      SidesReplaceTop(below, top, mask, next, q, q');
    }
    RegionPushSide(cf, base, top, mask, next, q, r);
    RegionPushSide(cf, base + first, top, mask, next, q', r);
  }

  /** The stack after a step by the control flow of a function stays inside its regions. */
  lemma FlowStaysInRegions(cf: ControlFlow, s: seq<Entry>, mask: set<nat>, next: seq<Pc>, ps: seq<Pc>, op: OpType)
    requires cf.Valid() && s != [] && InRegions(cf, s) && |ps| <= 2
    requires op != CallOps && !(op == RetOps && s[|s| - 1].kind.Call?)
    requires forall i :: 0 <= i < |ps| ==> ps[i] in cf.next(s[|s| - 1].pc)
    requires |ps| == 2 ==> cf.Splits(s[|s| - 1].pc, ps[0], ps[1])
    ensures InRegions(cf, Resolved(s, mask, next, ps, cf.code(s[|s| - 1].pc).recvgPc, op))
  {
    var top, below := s[|s| - 1], s[..|s| - 1];
    if |ps| == 1 && !Reconverges(top, ps[0]) {
      RegionPush(cf, below, top.(pc := ps[0], mask := Lanes(mask, next, ps[0])));
    } else if |ps| == 2 {
      DivergedStaysInRegions(cf, s, mask, next, ps[0], ps[1]);
    }
  }

  lemma ReturnStaysInRegions(cf: ControlFlow, s: seq<Entry>, ret: Pc)
    requires cf.Valid() && s != [] && InRegions(cf, s) && ReturnsTo(cf, s[|s| - 1].pc, ret)
    ensures InRegions(cf, Returned(s, ret))
  {
    var caller, below := s[|s| - 1], s[..|s| - 1];
    if !Reconverges(caller, ret) {
      RegionPush(cf, below, caller.(pc := ret));
      assert Returned(s, ret) == below + [caller.(pc := ret)];
    }
  }

  lemma CallStackPush(cf: ControlFlow, s: seq<Entry>, e: Entry, l: nat, rets: seq<Pc>)
    requires CallStack(cf, s, l, rets) && (l in e.mask ==> e.kind.Normal?)
    ensures CallStack(cf, s + [e], l, rets)
  {
    assert (s + [e])[..|s|] == s;
  }

  /** The call stack of a lane does not depend on the top entry's PC, nor on an ordinary top entry at all. */
  lemma CallStackReplaceTop(cf: ControlFlow, s: seq<Entry>, e: Entry, l: nat, rets: seq<Pc>)
    requires s != [] && CallStack(cf, s, l, rets)
    requires e.kind == s[|s| - 1].kind && (e.kind.Call? ==> (l in e.mask <==> l in s[|s| - 1].mask))
    ensures CallStack(cf, s[..|s| - 1] + [e], l, rets)
  {
    assert (s[..|s| - 1] + [e])[..|s| - 1] == s[..|s| - 1];
  }

  lemma DivergedKeepsCallStack(cf: ControlFlow, s: seq<Entry>, mask: set<nat>, next: seq<Pc>, q: Pc, q': Pc,
                               recvgPc: Pc, l: nat, rets: seq<Pc>)
    requires s != [] && CallStack(cf, s, l, rets)
    requires s[|s| - 1].kind.Call? ==> recvgPc != s[|s| - 1].recvgPc
    ensures CallStack(cf, Diverged(s[..|s| - 1], s[|s| - 1], mask, next, q, q', recvgPc), l, rets)
  {
    var top, below := s[|s| - 1], s[..|s| - 1];
    var first, second := Side(top, mask, next, q, recvgPc), Side(top, mask, next, q', recvgPc);
    var base := below;
    if recvgPc != top.recvgPc {
      base := below + [top.(pc := recvgPc)];
      CallStackReplaceTop(cf, s, top.(pc := recvgPc), l, rets);
      assert base + first + second == base + (first + second);
    } else {
      SidesReplaceTop(below, top, mask, next, q, q');
    }
    CallStackPushSide(cf, base, top, mask, next, q, recvgPc, l, rets);
    CallStackPushSide(cf, base + first, top, mask, next, q', recvgPc, l, rets);
  }

  lemma CallStackPushSide(cf: ControlFlow, s: seq<Entry>, top: Entry, mask: set<nat>, next: seq<Pc>, q: Pc, recvgPc: Pc,
                          l: nat, rets: seq<Pc>)
    requires CallStack(cf, s, l, rets)
    ensures CallStack(cf, s + Side(top, mask, next, q, recvgPc), l, rets)
  {
    var side := Side(top, mask, next, q, recvgPc);
    if side == [] {
      assert s + side == s;
    } else {
      CallStackPush(cf, s, side[0], l, rets);
    }
  }

  /** A step by the control flow of a function leaves the call stack of every live lane as it was. */
  lemma FlowKeepsCallStack(cf: ControlFlow, s: seq<Entry>, mask: set<nat>, next: seq<Pc>, ps: seq<Pc>, recvgPc: Pc,
                           op: OpType, l: nat, rets: seq<Pc>)
    requires s != [] && CallStack(cf, s, l, rets) && |ps| <= 2
    requires op != CallOps && !(op == RetOps && s[|s| - 1].kind.Call?)
    requires l in s[|s| - 1].mask <==> l in mask
    requires (ps == [] ==> mask == {}) && (|ps| == 1 ==> Lanes(mask, next, ps[0]) == mask)
    requires |ps| == 2 && s[|s| - 1].kind.Call? ==> recvgPc != s[|s| - 1].recvgPc
    ensures CallStack(cf, Resolved(s, mask, next, ps, recvgPc, op), l, rets)
  {
    var top := s[|s| - 1];
    if |ps| == 1 && !Reconverges(top, ps[0]) {
      CallStackReplaceTop(cf, s, top.(pc := ps[0], mask := mask), l, rets);
    } else if |ps| == 2 {
      DivergedKeepsCallStack(cf, s, mask, next, ps[0], ps[1], recvgPc, l, rets);
    }
  }

  lemma CallPushesReturn(cf: ControlFlow, s: seq<Entry>, e: Entry, l: nat, rets: seq<Pc>, ret: Pc)
    requires s != [] && CallStack(cf, s, l, rets) && e.kind.Call? && ReturnsTo(cf, s[|s| - 1].pc, ret)
    ensures CallStack(cf, s + [e], l, if l in e.mask then rets + [ret] else rets)
  {
    assert (s + [e])[..|s|] == s && (rets + [ret])[..|rets|] == rets;
  }

  lemma ReturnKeepsCallStack(cf: ControlFlow, s: seq<Entry>, ret: Pc, l: nat, rets: seq<Pc>)
    requires s != [] && CallStack(cf, s, l, rets)
    ensures CallStack(cf, Returned(s, ret), l, rets)
  {
    var caller := s[|s| - 1];
    if !Reconverges(caller, ret) {
      CallStackReplaceTop(cf, s, caller.(pc := ret), l, rets);
      assert Returned(s, ret) == s[..|s| - 1] + [caller.(pc := ret)];
    }
  }

  // ----- one step keeps everything -----

  /** The lanes of the top entry that go on, and where they go. */
  lemma Movers(cf: ControlFlow, lanes: LaneRuns, w: Warp) returns (mask: set<nat>, next: seq<Pc>, live: set<nat>)
    requires cf.Valid() && LegalLanes(cf, lanes) && Structured(cf, lanes, w) && w.stack != []
    ensures var solo := SoloOf(lanes);
      var count := Counted(w.count, Executing(solo, w));
      && next == Pcs(solo, count) && live == Live(solo, count) && mask == w.stack[|w.stack| - 1].mask * live
    ensures NextPaths(lanes, w) == NextPcs(mask, next)
    ensures forall l :: l in mask ==> l < |next|
    ensures forall l :: l in mask ==> lanes(l, w.count[l]).Some? && lanes(l, w.count[l] + 1).Some?
    ensures forall l :: l in mask ==>
      var st, st' := lanes(l, w.count[l]).value, lanes(l, w.count[l] + 1).value;
      && st.pc == w.stack[|w.stack| - 1].pc && st'.pc == next[l]
      && LaneStep(cf, st, st') && CallStack(cf, w.stack, l, st.rets)
  {
    var solo := SoloOf(lanes);
    var count := Counted(w.count, Executing(solo, w));
    next, live := Pcs(solo, count), Live(solo, count);
    mask := w.stack[|w.stack| - 1].mask * live;
    forall l | l in mask
      ensures l < |next| && lanes(l, w.count[l]).Some? && lanes(l, w.count[l] + 1).Some?
      ensures var st, st' := lanes(l, w.count[l]).value, lanes(l, w.count[l] + 1).value;
        && st.pc == w.stack[|w.stack| - 1].pc && st'.pc == next[l]
        && LaneStep(cf, st, st') && CallStack(cf, w.stack, l, st.rets)
    {
      ExecutedStep(cf, lanes, w, l);
      assert count[l] == w.count[l] + 1;
    }
  }

  ghost predicate IsReturn(cf: ControlFlow, top: Entry) {
    cf.code(top.pc).op == RetOps && top.kind.Call?
  }

  /** A return in a call entry does not split the warp. */
  lemma ReturnsAgree(cf: ControlFlow, lanes: LaneRuns, w: Warp)
    requires cf.Valid() && LegalLanes(cf, lanes) && Structured(cf, lanes, w) && w.stack != []
    requires IsReturn(cf, w.stack[|w.stack| - 1])
    ensures |NextPaths(lanes, w)| <= 1
    ensures forall q :: q in NextPaths(lanes, w) ==> 2 <= |w.stack| && ReturnsTo(cf, w.stack[|w.stack| - 2].pc, q)
  {
    var mask, next, live := Movers(cf, lanes, w);
    forall q | q in NextPcs(mask, next)
      ensures 2 <= |w.stack| && ReturnsTo(cf, w.stack[|w.stack| - 2].pc, q)
    {
      var l :| l in mask && next[l] == q;
      ReturnStep(cf, w.stack, l, lanes(l, w.count[l]).value, lanes(l, w.count[l] + 1).value);
    }
    if NextPcs(mask, next) != {} {
      SubsetSize(NextPcs(mask, next), {cf.fall(w.stack[|w.stack| - 2].pc)});
    }
  }

  /** Apart from calls and returns, lanes move within their function. */
  lemma OthersFlow(cf: ControlFlow, lanes: LaneRuns, w: Warp)
    requires cf.Valid() && LegalLanes(cf, lanes) && Structured(cf, lanes, w) && w.stack != []
    requires cf.code(w.stack[|w.stack| - 1].pc).op != CallOps && !IsReturn(cf, w.stack[|w.stack| - 1])
    ensures NextPaths(lanes, w) <= cf.next(w.stack[|w.stack| - 1].pc) && |NextPaths(lanes, w)| <= 2
  {
    var mask, next, live := Movers(cf, lanes, w);
    forall q | q in NextPcs(mask, next)
      ensures q in cf.next(w.stack[|w.stack| - 1].pc)
    {
      var l :| l in mask && next[l] == q;
      OrdinaryStepFlows(cf, w.stack, l, lanes(l, w.count[l]).value, lanes(l, w.count[l] + 1).value);
    }
    SubsetSize(NextPcs(mask, next), cf.next(w.stack[|w.stack| - 1].pc));
  }

  /** The steps of such a warp are the steps that the stack is right for. */
  lemma ConvergentStepsAreAllowed(cf: ControlFlow, lanes: LaneRuns, w: Warp)
    requires cf.Valid() && LegalLanes(cf, lanes) && Structured(cf, lanes, w) && Convergent(cf, lanes, w)
    ensures Allowed(cf.code, SoloOf(lanes), w)
  {
    if w.stack != [] {
      var top := w.stack[|w.stack| - 1];
      if IsReturn(cf, top) {
        ReturnsAgree(cf, lanes, w);
      } else if cf.code(top.pc).op != CallOps {
        OthersFlow(cf, lanes, w);
        FlowsNest(cf, w.stack[..|w.stack| - 1], top, NextPaths(lanes, w));
      }
    }
  }

  /** The PCs `ps` that the top entry's lanes leave for, by kind of instruction. */
  ghost predicate LeavesFor(cf: ControlFlow, s: seq<Entry>, mask: set<nat>, next: seq<Pc>, ps: seq<Pc>)
    requires s != []
  {
    var top := s[|s| - 1];
    && |ps| <= 2
    && (ps == [] <==> mask == {})
    && (|ps| == 1 ==> Lanes(mask, next, ps[0]) == mask)
    && (ps != [] ==>
          if cf.code(top.pc).op == CallOps then cf.located(ps[0]) && |ps| == 1
          else if IsReturn(cf, top) then 2 <= |s| && ReturnsTo(cf, s[|s| - 2].pc, ps[0]) && |ps| == 1
          else ps[0] in cf.next(top.pc) && (|ps| == 2 ==> cf.Splits(top.pc, ps[0], ps[1])))
  }

  lemma StepShape(cf: ControlFlow, lanes: LaneRuns, w: Warp, mask: set<nat>, next: seq<Pc>) returns (ps: seq<Pc>)
    requires cf.Valid() && LegalLanes(cf, lanes) && Structured(cf, lanes, w) && Convergent(cf, lanes, w)
    requires w.stack != []
    requires var solo := SoloOf(lanes);
      var count := Counted(w.count, Executing(solo, w));
      next == Pcs(solo, count) && mask == w.stack[|w.stack| - 1].mask * Live(solo, count)
    ensures LeavesFor(cf, w.stack, mask, next, ps)
    ensures var instr := cf.code(w.stack[|w.stack| - 1].pc);
      Next(cf.code, SoloOf(lanes), w).stack == Resolved(w.stack, mask, next, ps, instr.recvgPc, instr.op)
  {
    var top := w.stack[|w.stack| - 1];
    var notTaken := NotTakenPc(top.pc, cf.code(top.pc).size);
    ps := Order(NextPcs(mask, next), notTaken);
    var mask', next', live := Movers(cf, lanes, w);
    ConvergentStepsAreAllowed(cf, lanes, w);
    PathsOfTop(mask, next, notTaken);
    if ps != [] {
      var l :| l in mask && next[l] == ps[0];
      if IsReturn(cf, top) {
        ReturnsAgree(cf, lanes, w);
      } else if cf.code(top.pc).op != CallOps {
        OthersFlow(cf, lanes, w);
      }
    }
  }

  lemma ResolvedStaysInRegions(cf: ControlFlow, s: seq<Entry>, mask: set<nat>, next: seq<Pc>, ps: seq<Pc>)
    requires cf.Valid() && s != [] && InRegions(cf, s) && LeavesFor(cf, s, mask, next, ps)
    ensures InRegions(cf, Resolved(s, mask, next, ps, cf.code(s[|s| - 1].pc).recvgPc, cf.code(s[|s| - 1].pc).op))
  {
    var top := s[|s| - 1];
    if ps != [] && cf.code(top.pc).op == CallOps {
      RegionPush(cf, s, Entry(ps[0], Lanes(mask, next, ps[0]), NULL_PC, Call));
    } else if ps != [] && IsReturn(cf, top) {
      assert s[..|s| - 1][|s| - 2] == s[|s| - 2];
      ReturnStaysInRegions(cf, s[..|s| - 1], ps[0]);
    } else if ps != [] {
      FlowStaysInRegions(cf, s, mask, next, ps, cf.code(top.pc).op);
    }
  }

  /** The call stack `rets'` of a lane after the step, given the one before. */
  ghost predicate CallStackMoves(cf: ControlFlow, top: Entry, moves: bool, rets: seq<Pc>, rets': seq<Pc>) {
    if !moves then rets' == rets
    else if cf.code(top.pc).op == CallOps then
      ReturnsTo(cf, top.pc, cf.fall(top.pc)) && rets' == rets + [cf.fall(top.pc)]
    else if IsReturn(cf, top) then rets != [] && rets' == rets[..|rets| - 1]
    else rets' == rets
  }

  lemma ResolvedKeepsCallStack(cf: ControlFlow, s: seq<Entry>, mask: set<nat>, next: seq<Pc>, ps: seq<Pc>,
                               l: nat, rets: seq<Pc>, rets': seq<Pc>)
    requires cf.Valid() && s != [] && InRegions(cf, s) && LeavesFor(cf, s, mask, next, ps)
    requires CallStack(cf, s, l, rets) && CallStackMoves(cf, s[|s| - 1], l in mask, rets, rets')
    requires l in s[|s| - 1].mask <==> l in mask
    requires mask != {} && cf.code(s[|s| - 1].pc).op == CallOps ==> ReturnsTo(cf, s[|s| - 1].pc, cf.fall(s[|s| - 1].pc))
    ensures var instr := cf.code(s[|s| - 1].pc);
      CallStack(cf, Resolved(s, mask, next, ps, instr.recvgPc, instr.op), l, rets')
  {
    var top := s[|s| - 1];
    if ps == [] {
      assert CallStack(cf, s[..|s| - 1], l, rets);
    } else if cf.code(top.pc).op == CallOps {
      CallPushesReturn(cf, s, Entry(ps[0], mask, NULL_PC, Call), l, rets, cf.fall(top.pc));
    } else if IsReturn(cf, top) {
      ReturnKeepsCallStack(cf, s[..|s| - 1], ps[0], l, rets');
    } else {
      FlowKeepsCallStack(cf, s, mask, next, ps, cf.code(top.pc).recvgPc, cf.code(top.pc).op, l, rets);
    }
  }

  lemma StepStaysInRegions(cf: ControlFlow, lanes: LaneRuns, w: Warp)
    requires cf.Valid() && LegalLanes(cf, lanes) && Structured(cf, lanes, w) && Convergent(cf, lanes, w)
    requires w.stack != []
    ensures InRegions(cf, Next(cf.code, SoloOf(lanes), w).stack)
  {
    var mask, next, live := Movers(cf, lanes, w);
    var ps := StepShape(cf, lanes, w, mask, next);
    ResolvedStaysInRegions(cf, w.stack, mask, next, ps);
  }

  lemma StepKeepsCallStacks(cf: ControlFlow, lanes: LaneRuns, w: Warp, l: nat)
    requires cf.Valid() && LegalLanes(cf, lanes) && Structured(cf, lanes, w) && Convergent(cf, lanes, w)
    requires w.stack != []
    requires var solo := SoloOf(lanes); l in Live(solo, Counted(w.count, Executing(solo, w)))
    ensures var w' := Next(cf.code, SoloOf(lanes), w);
      l < |w'.count| && lanes(l, w'.count[l]).Some? && CallStack(cf, w'.stack, l, lanes(l, w'.count[l]).value.rets)
  {
    var s, top, solo := w.stack, w.stack[|w.stack| - 1], SoloOf(lanes);
    var mask, next, live := Movers(cf, lanes, w);
    var ps := StepShape(cf, lanes, w, mask, next);
    LegalLanesAreWellFormed(cf, lanes);
    LiveLanesShrink(solo, w.count, Executing(solo, w));
    var rets := lanes(l, w.count[l]).value.rets;
    if l in mask {
      var st, st' := lanes(l, w.count[l]).value, lanes(l, w.count[l] + 1).value;
      if cf.code(top.pc).op != CallOps && !IsReturn(cf, top) {
        OrdinaryStepFlows(cf, s, l, st, st');
      }
      ResolvedKeepsCallStack(cf, s, mask, next, ps, l, rets, st'.rets);
    } else {
      if m :| m in mask {
        assert LaneStep(cf, lanes(m, w.count[m]).value, lanes(m, w.count[m] + 1).value);
      }
      ResolvedKeepsCallStack(cf, s, mask, next, ps, l, rets, rets);
    }
  }

  /** One step of the warp keeps the invariant. */
  lemma StepStaysStructured(cf: ControlFlow, lanes: LaneRuns, w: Warp)
    requires cf.Valid() && LegalLanes(cf, lanes) && Structured(cf, lanes, w) && Convergent(cf, lanes, w)
    ensures Structured(cf, lanes, Next(cf.code, SoloOf(lanes), w))
  {
    if w.stack == [] {
      return;
    }
    var solo := SoloOf(lanes);
    var w' := Next(cf.code, solo, w);
    LegalLanesAreWellFormed(cf, lanes);
    ConvergentStepsAreAllowed(cf, lanes, w);
    StepStaysInLockstep(cf.code, solo, w);
    StepStaysInRegions(cf, lanes, w);
    forall l | l in Live(solo, w'.count)
      ensures CallStack(cf, w'.stack, l, lanes(l, w'.count[l]).value.rets)
    {
      StepKeepsCallStacks(cf, lanes, w, l);
    }
  }

  // ----- whole runs -----

  lemma LaunchIsStructured(cf: ControlFlow, lanes: LaneRuns, warpSize: nat, startPc: Pc, mask: set<nat>)
    requires cf.Valid() && cf.located(startPc) && mask != {} && mask <= Below(warpSize)
    requires forall l: nat :: l < warpSize ==> lanes(l, 0) == if l in mask then Some(LaneState(startPc, [])) else None
    ensures Structured(cf, lanes, Launched(warpSize, startPc, mask))
  {
    LaunchIsInLockstep(SoloOf(lanes), warpSize, startPc, mask);
    var w := Launched(warpSize, startPc, mask);
    assert w.stack[..0] == [];
  }

  /** The machine: one step of a warp whose lanes would alone run like that. */
  ghost function StepOf(cf: ControlFlow, lanes: LaneRuns): Warp -> Warp {
    w => Next(cf.code, SoloOf(lanes), w)
  }

  /** Every convergent run of a legal warp is in lockstep throughout, with no assumption on its stack. */
  lemma ConvergentRunsStayInLockstep(cf: ControlFlow, lanes: LaneRuns, run: seq<Warp>)
    requires cf.Valid() && LegalLanes(cf, lanes)
    requires IsRun(StepOf(cf, lanes), run) && Structured(cf, lanes, run[0])
    requires forall i :: 0 <= i < |run| - 1 ==> Convergent(cf, lanes, run[i])
    ensures forall i :: 0 <= i < |run| ==> InLockstep(SoloOf(lanes), run[i])
  {
    var step, allowed, inv := StepOf(cf, lanes), w => Convergent(cf, lanes, w), w => Structured(cf, lanes, w);
    forall w | inv(w) && allowed(w)
      ensures inv(step(w))
    {
      StepStaysStructured(cf, lanes, w);
    }
    HoldsAlong(step, allowed, inv, run);
    forall i | 0 <= i < |run|
      ensures InLockstep(SoloOf(lanes), run[i])
    {
      assert inv(run[i]);
    }
  }

  /** When moreover the lanes' solo runs are finite, the warp finishes within a bound known beforehand,
      and every lane has executed exactly its solo run. */
  lemma ConvergentRunsComplete(cf: ControlFlow, lanes: LaneRuns, w: Warp, lengths: seq<nat>) returns (run: seq<Warp>)
    requires cf.Valid() && LegalLanes(cf, lanes) && Structured(cf, lanes, w)
    requires Finite(SoloOf(lanes), lengths) && Within(w.count, lengths)
    requires forall v :: Reaches(StepOf(cf, lanes), w, v) ==> Convergent(cf, lanes, v)
    ensures IsRun(StepOf(cf, lanes), run) && run[0] == w && |run| <= 1 + Work(w, lengths)
    ensures run[|run| - 1].stack == [] && Complete(SoloOf(lanes), run[|run| - 1], lengths)
  {
    LegalLanesAreWellFormed(cf, lanes);
    var step := StepOf(cf, lanes);
    forall v | Reaches(step, w, v)
      ensures Allowed(cf.code, SoloOf(lanes), v)
    {
      ReachedIsStructured(cf, lanes, w, v);
      ConvergentStepsAreAllowed(cf, lanes, v);
    }
    run := RunCompletes(cf.code, SoloOf(lanes), w, lengths);
  }

  lemma ReachedIsStructured(cf: ControlFlow, lanes: LaneRuns, w: Warp, v: Warp)
    requires cf.Valid() && LegalLanes(cf, lanes) && Structured(cf, lanes, w)
    requires Reaches(StepOf(cf, lanes), w, v)
    requires forall u :: Reaches(StepOf(cf, lanes), w, u) ==> Convergent(cf, lanes, u)
    ensures Structured(cf, lanes, v)
  {
    var step, allowed, inv := StepOf(cf, lanes), u => Convergent(cf, lanes, u), u => Structured(cf, lanes, u);
    var run :| IsRun(step, run) && run[0] == w && run[|run| - 1] == v;
    forall i | 0 <= i < |run|
      ensures allowed(run[i])
    {
      assert IsRun(step, run[..i + 1]);
      assert Reaches(step, w, run[i]);
    }
    forall u | inv(u) && allowed(u)
      ensures inv(step(u))
    {
      StepStaysStructured(cf, lanes, u);
    }
    HoldsAlong(step, allowed, inv, run);
    assert inv(run[|run| - 1]);
  }

  lemma LaunchedRunsComplete(
    cf: ControlFlow, lanes: LaneRuns, warpSize: nat, startPc: Pc, mask: set<nat>, lengths: seq<nat>)
    returns (run: seq<Warp>)
    requires cf.Valid() && LegalLanes(cf, lanes) && cf.located(startPc) && mask != {} && mask <= Below(warpSize)
    requires forall l: nat :: l < warpSize ==> lanes(l, 0) == if l in mask then Some(LaneState(startPc, [])) else None
    requires Finite(SoloOf(lanes), lengths) && |lengths| == warpSize
    requires forall v :: Reaches(StepOf(cf, lanes), Launched(warpSize, startPc, mask), v) ==> Convergent(cf, lanes, v)
    ensures IsRun(StepOf(cf, lanes), run) && run[0] == Launched(warpSize, startPc, mask)
    ensures |run| <= 1 + Work(run[0], lengths)
    ensures run[|run| - 1].stack == [] && Complete(SoloOf(lanes), run[|run| - 1], lengths)
  {
    var w := Launched(warpSize, startPc, mask);
    LaunchIsStructured(cf, lanes, warpSize, startPc, mask);
    assert Within(w.count, lengths);
    run := ConvergentRunsComplete(cf, lanes, w, lengths);
  }
}
