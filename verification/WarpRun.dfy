/** Whole runs of a warp: the lanes execute in lockstep under the reconvergence stack, and each of them
    executes exactly the instructions it would execute alone. */
module WarpRun {
  import opened FiniteSets
  import opened Options
  import opened SimtStack
  import opened StateMachine

  /** What the stack is told about an instruction. */
  datatype Instr = Instr(op: OpType, size: nat, recvgPc: Pc)

  /** A lane run alone: the PC of its k-th instruction, or None once it is done. */
  type Solo = (nat, nat) -> Option<Pc>

  ghost predicate WellFormed(solo: Solo) {
    && (forall l: nat, k: nat :: solo(l, k).None? ==> solo(l, k + 1).None?)
    && forall l: nat, k: nat :: solo(l, k).Some? ==> solo(l, k).value != NULL_PC
  }

  /** A warp: its stack, how many instructions each lane has executed, and at which PCs. */
  datatype Warp = Warp(stack: seq<Entry>, count: seq<nat>, log: seq<seq<Pc>>)

  function Launched(warpSize: nat, startPc: Pc, mask: set<nat>): Warp {
    Warp([Entry(startPc, mask, NULL_PC, Normal)], seq(warpSize, _ => 0), seq(warpSize, _ => []))
  }

  // ----- one step -----

  ghost function Live(solo: Solo, count: seq<nat>): set<nat> {
    set l | l in Below(|count|) && solo(l, count[l]).Some?
  }

  ghost function Pcs(solo: Solo, count: seq<nat>): seq<Pc> {
    seq(|count|, l requires 0 <= l < |count| =>
      if solo(l, count[l]).Some? then solo(l, count[l]).value else NULL_PC)
  }

  ghost function Executing(solo: Solo, w: Warp): set<nat>
    requires w.stack != []
  {
    w.stack[|w.stack| - 1].mask * Live(solo, w.count)
  }

  function Counted(count: seq<nat>, lanes: set<nat>): seq<nat> {
    seq(|count|, l requires 0 <= l < |count| => if l in lanes then count[l] + 1 else count[l])
  }

  function Logged(log: seq<seq<Pc>>, lanes: set<nat>, pc: Pc): seq<seq<Pc>> {
    seq(|log|, l requires 0 <= l < |log| => if l in lanes then log[l] + [pc] else log[l])
  }

  /** All live lanes of the top entry execute the instruction at its PC; then the stack is updated. */
  ghost function Next(code: Pc -> Instr, solo: Solo, w: Warp): Warp {
    if w.stack == [] then w
    else
      var pc := w.stack[|w.stack| - 1].pc;
      var lanes := Executing(solo, w);
      var count := Counted(w.count, lanes);
      Warp(Updated(w.stack, Live(solo, count), Pcs(solo, count), code(pc).recvgPc, code(pc).op,
                   NotTakenPc(pc, code(pc).size)),
           count, Logged(w.log, lanes, pc))
  }

  /** The step's own checks and the nesting condition: calls and returns do not split the warp, a branch
      has at most two targets, and the reconvergence PC of a divergent branch respects the top entry's. */
  ghost predicate Allowed(code: Pc -> Instr, solo: Solo, w: Warp) {
    w.stack != [] ==>
      var top := w.stack[|w.stack| - 1];
      var count := Counted(w.count, Executing(solo, w));
      var paths := NextPcs(top.mask * Live(solo, count), Pcs(solo, count));
      && |paths| <= 2
      && (code(top.pc).op == CallOps || (code(top.pc).op == RetOps && top.kind.Call?) ==> |paths| <= 1)
      && Nested(top, paths, code(top.pc).recvgPc)
  }

  // ----- the invariant of a run -----

  /** Every entry holds lanes of the warp, and at least one. */
  ghost predicate Occupied(s: seq<Entry>, warpSize: nat) {
    forall i :: 0 <= i < |s| ==> s[i].mask != {} && s[i].mask <= Below(warpSize)
  }

  /** What lane `l` has executed so far is the beginning of its solo run. */
  ghost predicate Faithful(solo: Solo, l: nat, count: nat, log: seq<Pc>) {
    |log| == count && forall k :: 0 <= k < count ==> solo(l, k) == Some(log[k])
  }

  ghost predicate InLockstep(solo: Solo, w: Warp) {
    && Lockstep(w.stack, Pcs(solo, w.count), Live(solo, w.count))
    && Occupied(w.stack, |w.count|)
    && |w.log| == |w.count|
    && forall l :: 0 <= l < |w.count| ==> Faithful(solo, l, w.count[l], w.log[l])
  }

  lemma LaunchIsInLockstep(solo: Solo, warpSize: nat, startPc: Pc, mask: set<nat>)
    requires mask != {} && mask <= Below(warpSize)
    requires forall l :: 0 <= l < warpSize ==> solo(l, 0) == if l in mask then Some(startPc) else None
    ensures InLockstep(solo, Launched(warpSize, startPc, mask))
  {
    var w := Launched(warpSize, startPc, mask);
    var e := w.stack[0];
    assert w.stack == [] + [e];
    forall l | l in Live(solo, w.count)
      ensures Holder(w.stack, l) == 0 && e.pc == Pcs(solo, w.count)[l]
    {
      HolderOfPush([], e, l);
    }
    assert WellNested([], Live(solo, w.count)) && Seated([], e, Live(solo, w.count));
    assert w.stack[..0] == [];
  }

  lemma DivergedIsOccupied(below: seq<Entry>, top: Entry, mask: set<nat>, next: seq<Pc>, p: Pc, q: Pc, recvgPc: Pc,
                           warpSize: nat)
    requires Occupied(below, warpSize) && Occupied([top], warpSize) && mask <= Below(warpSize)
    requires Lanes(mask, next, p) != {} && Lanes(mask, next, q) != {}
    ensures Occupied(Diverged(below, top, mask, next, p, q, recvgPc), warpSize)
  {
    assert top.mask != {} && top.mask <= Below(warpSize) by {
      assert [top][0] == top;
    }
    assert Lanes(mask, next, p) <= mask && Lanes(mask, next, q) <= mask;
    var sides := Side(top, mask, next, p, recvgPc) + Side(top, mask, next, q, recvgPc);
    assert Occupied(sides, warpSize);
  }

  lemma ResolvedIsOccupied(s: seq<Entry>, mask: set<nat>, next: seq<Pc>, ps: seq<Pc>, recvgPc: Pc, op: OpType,
                           warpSize: nat)
    requires s != [] && Occupied(s, warpSize) && mask <= s[|s| - 1].mask
    requires |ps| <= 2 && forall i :: 0 <= i < |ps| ==> Lanes(mask, next, ps[i]) != {}
    ensures Occupied(Resolved(s, mask, next, ps, recvgPc, op), warpSize)
  {
    var top, below := s[|s| - 1], s[..|s| - 1];
    assert Occupied(below, warpSize) && Occupied([top], warpSize);
    if |ps| == 2 && op != CallOps && !(op == RetOps && top.kind.Call? && below != []) {
      DivergedIsOccupied(below, top, mask, next, ps[0], ps[1], recvgPc, warpSize);
    } else if ps != [] {
      assert Lanes(mask, next, ps[0]) <= mask;
    }
  }

  lemma UpdatedIsOccupied(s: seq<Entry>, live: set<nat>, next: seq<Pc>, recvgPc: Pc, op: OpType, notTaken: Pc,
                          warpSize: nat)
    requires s != [] && Occupied(s, warpSize) && live <= Below(|next|)
    requires |NextPcs(s[|s| - 1].mask * live, next)| <= 2
    ensures Occupied(Updated(s, live, next, recvgPc, op, notTaken), warpSize)
  {
    var mask := s[|s| - 1].mask * live;
    PathsOfTop(mask, next, notTaken);
    var ps := Order(NextPcs(mask, next), notTaken);
    forall i | 0 <= i < |ps|
      ensures Lanes(mask, next, ps[i]) != {}
    {
      var l :| l in mask && l < |next| && next[l] == ps[i];
      assert l in Lanes(mask, next, ps[i]);
    }
    ResolvedIsOccupied(s, mask, next, ps, recvgPc, op, warpSize);
  }

  /** Lanes only ever finish. */
  lemma LiveLanesShrink(solo: Solo, count: seq<nat>, lanes: set<nat>)
    requires WellFormed(solo)
    ensures Live(solo, Counted(count, lanes)) <= Live(solo, count)
  {
    forall l | l in Live(solo, Counted(count, lanes))
      ensures l in Live(solo, count)
    {
      assert solo(l, count[l]).None? ==> solo(l, count[l] + 1).None?;
    }
  }

  lemma StepIsSteppable(code: Pc -> Instr, solo: Solo, w: Warp)
    requires WellFormed(solo) && w.stack != [] && Allowed(code, solo, w)
    ensures var pc := w.stack[|w.stack| - 1].pc;
      var count := Counted(w.count, Executing(solo, w));
      Steppable(w.stack, Pcs(solo, w.count), Pcs(solo, count), Live(solo, w.count), Live(solo, count), code(pc).op)
  {
    var count := Counted(w.count, Executing(solo, w));
    LiveLanesShrink(solo, w.count, Executing(solo, w));
    forall l | l in Live(solo, count) && l !in w.stack[|w.stack| - 1].mask
      ensures Pcs(solo, count)[l] == Pcs(solo, w.count)[l]
    {
      assert count[l] == w.count[l];
    }
  }

  /** A live lane of the top entry is about to execute its own next instruction, not some other lane's. */
  lemma ExecutesOwnInstruction(solo: Solo, w: Warp, l: nat)
    requires w.stack != [] && Tracks(w.stack, Pcs(solo, w.count), Live(solo, w.count)) && l in Executing(solo, w)
    ensures l < |w.count| && solo(l, w.count[l]) == Some(w.stack[|w.stack| - 1].pc)
  {
    assert Holder(w.stack, l) == |w.stack| - 1;
  }

  lemma StepStaysFaithful(solo: Solo, w: Warp)
    requires w.stack != [] && Tracks(w.stack, Pcs(solo, w.count), Live(solo, w.count)) && |w.log| == |w.count|
    requires forall l :: 0 <= l < |w.count| ==> Faithful(solo, l, w.count[l], w.log[l])
    ensures var lanes := Executing(solo, w);
      var count, log := Counted(w.count, lanes), Logged(w.log, lanes, w.stack[|w.stack| - 1].pc);
      forall l :: 0 <= l < |w.count| ==> Faithful(solo, l, count[l], log[l])
  {
    var lanes := Executing(solo, w);
    var count, log := Counted(w.count, lanes), Logged(w.log, lanes, w.stack[|w.stack| - 1].pc);
    forall l | 0 <= l < |w.count|
      ensures Faithful(solo, l, count[l], log[l])
    {
      assert Faithful(solo, l, w.count[l], w.log[l]);
      if l in lanes {
        ExecutesOwnInstruction(solo, w, l);
      }
    }
  }

  /** One allowed step keeps the invariant. */
  lemma StepStaysInLockstep(code: Pc -> Instr, solo: Solo, w: Warp)
    requires WellFormed(solo) && InLockstep(solo, w) && Allowed(code, solo, w)
    ensures InLockstep(solo, Next(code, solo, w))
  {
    if w.stack == [] {
      return;
    }
    var pc := w.stack[|w.stack| - 1].pc;
    var count := Counted(w.count, Executing(solo, w));
    var live, live', pcs, pcs' := Live(solo, w.count), Live(solo, count), Pcs(solo, w.count), Pcs(solo, count);
    StepIsSteppable(code, solo, w);
    NestedUpdateKeepsLockstep(w.stack, pcs, pcs', live, live', code(pc).recvgPc, code(pc).op,
                              NotTakenPc(pc, code(pc).size));
    UpdatedIsOccupied(w.stack, live', pcs', code(pc).recvgPc, code(pc).op, NotTakenPc(pc, code(pc).size), |w.count|);
    StepStaysFaithful(solo, w);
  }

  /** Lockstep refinement: in every allowed run, each lane has executed a beginning of its solo run, and
      every live lane is held by a stack entry whose PC is its own. */
  lemma RunStaysInLockstep(code: Pc -> Instr, solo: Solo, run: seq<Warp>)
    requires WellFormed(solo) && IsRun(w => Next(code, solo, w), run) && InLockstep(solo, run[0])
    requires forall i :: 0 <= i < |run| - 1 ==> Allowed(code, solo, run[i])
    ensures forall i :: 0 <= i < |run| ==> InLockstep(solo, run[i])
  {
    var step, allowed, inv := w => Next(code, solo, w), w => Allowed(code, solo, w), w => InLockstep(solo, w);
    forall w | inv(w) && allowed(w)
      ensures inv(step(w))
    {
      StepStaysInLockstep(code, solo, w);
    }
    HoldsAlong(step, allowed, inv, run);
    assert forall i :: 0 <= i < |run| ==> inv(run[i]);
  }

  // ----- completion -----

  /** The instructions that the lanes still have to execute, for solo runs of the given lengths. */
  ghost function Remaining(count: seq<nat>, lengths: seq<nat>): int
    requires |count| == |lengths|
  {
    if count == [] then 0
    else lengths[|count| - 1] - count[|count| - 1] + Remaining(count[..|count| - 1], lengths[..|count| - 1])
  }

  lemma {:induction false} RemainingDrops(count: seq<nat>, count': seq<nat>, lengths: seq<nat>)
    requires |count| == |count'| == |lengths|
    requires forall l :: 0 <= l < |count| ==> count[l] <= count'[l] <= lengths[l]
    ensures 0 <= Remaining(count', lengths) <= Remaining(count, lengths)
    ensures (exists l :: 0 <= l < |count| && count[l] < count'[l]) ==>
      Remaining(count', lengths) < Remaining(count, lengths)
  {
    if count != [] {
      var n := |count| - 1;
      RemainingDrops(count[..n], count'[..n], lengths[..n]);
      if l :| 0 <= l < |count| && count[l] < count'[l] {
        assert l < n ==> count[..n][l] < count'[..n][l];
      }
    }
  }

  ghost predicate Finite(solo: Solo, lengths: seq<nat>) {
    forall l: nat, k: nat :: l < |lengths| ==> (solo(l, k).Some? <==> k < lengths[l])
  }

  /** Each executed instruction counts three times, so that it pays for the two entries it may push. */
  ghost function Work(w: Warp, lengths: seq<nat>): int
    requires |w.count| == |lengths|
  {
    3 * Remaining(w.count, lengths) + |w.stack|
  }

  lemma UpdatedSize(s: seq<Entry>, live: set<nat>, next: seq<Pc>, recvgPc: Pc, op: OpType, notTaken: Pc)
    requires s != [] && live <= Below(|next|) && |NextPcs(s[|s| - 1].mask * live, next)| <= 2
    ensures var s' := Updated(s, live, next, recvgPc, op, notTaken);
      |s'| <= |s| + 2 && (s[|s| - 1].mask * live == {} ==> |s'| == |s| - 1)
  {
    PathsOfTop(s[|s| - 1].mask * live, next, notTaken);
    if s[|s| - 1].mask * live == {} {
      assert NextPcs(s[|s| - 1].mask * live, next) == {};
    }
  }

  /** Every step does work: it executes an instruction or discards an entry. */
  lemma StepDoesWork(code: Pc -> Instr, solo: Solo, w: Warp, lengths: seq<nat>)
    requires WellFormed(solo) && InLockstep(solo, w) && Allowed(code, solo, w) && w.stack != []
    requires Within(w.count, lengths) && Finite(solo, lengths)
    ensures var w' := Next(code, solo, w);
      && Within(w'.count, lengths)
      && 0 <= Work(w', lengths) < Work(w, lengths)
  {
    var top, lanes := w.stack[|w.stack| - 1], Executing(solo, w);
    var w' := Next(code, solo, w);
    forall l | l in lanes
      ensures w.count[l] < lengths[l]
    {
      assert solo(l, w.count[l]).Some?;
    }
    RemainingDrops(w.count, w'.count, lengths);
    var live' := Live(solo, w'.count);
    UpdatedSize(w.stack, live', Pcs(solo, w'.count), code(top.pc).recvgPc, code(top.pc).op,
                NotTakenPc(top.pc, code(top.pc).size));
    if lanes != {} {
      var l :| l in lanes;
      assert w.count[l] < w'.count[l];
    } else {
      assert w'.count == w.count;
      assert top.mask * live' == {};
    }
  }

  ghost predicate Within(count: seq<nat>, lengths: seq<nat>) {
    |count| == |lengths| && forall l :: 0 <= l < |lengths| ==> count[l] <= lengths[l]
  }

  /** Every lane has executed its whole solo run and nothing else. */
  ghost predicate Complete(solo: Solo, w: Warp, lengths: seq<nat>) {
    |w.log| == |lengths| && forall l :: 0 <= l < |lengths| ==> Faithful(solo, l, lengths[l], w.log[l])
  }

  lemma EmptyStackIsComplete(solo: Solo, w: Warp, lengths: seq<nat>)
    requires InLockstep(solo, w) && Within(w.count, lengths) && Finite(solo, lengths) && w.stack == []
    ensures Complete(solo, w, lengths)
  {
    forall l | 0 <= l < |lengths|
      ensures w.count[l] == lengths[l]
    {
      assert l !in Live(solo, w.count);
    }
  }

  lemma StepKeepsWorking(code: Pc -> Instr, solo: Solo, w: Warp, lengths: seq<nat>)
    requires WellFormed(solo) && Finite(solo, lengths) && InLockstep(solo, w) && Within(w.count, lengths)
    requires Allowed(code, solo, w) && w.stack != []
    ensures var w' := Next(code, solo, w);
      InLockstep(solo, w') && Within(w'.count, lengths) && 0 <= Work(w', lengths) < Work(w, lengths)
  {
    StepStaysInLockstep(code, solo, w);
    StepDoesWork(code, solo, w, lengths);
  }

  lemma ReachedKeepsWorking(code: Pc -> Instr, solo: Solo, w: Warp, v: Warp, lengths: seq<nat>)
    requires WellFormed(solo) && Finite(solo, lengths) && InLockstep(solo, v) && Within(v.count, lengths)
    requires Reaches(u => Next(code, solo, u), w, v) && Allowed(code, solo, v) && v.stack != []
    ensures var v' := Next(code, solo, v);
      && InLockstep(solo, v') && Within(v'.count, lengths) && Reaches(u => Next(code, solo, u), w, v')
      && 0 <= Work(v', lengths) < Work(v, lengths)
  {
    StepKeepsWorking(code, solo, v, lengths);
    ReachesNext(u => Next(code, solo, u), w, v);
  }

  /** Completion: when the lanes' solo runs are finite, the warp empties its stack within a number of steps
      known beforehand, and by then every lane has executed its whole solo run and nothing else. */
  lemma RunCompletes(code: Pc -> Instr, solo: Solo, w: Warp, lengths: seq<nat>) returns (run: seq<Warp>)
    requires WellFormed(solo) && Finite(solo, lengths) && InLockstep(solo, w) && Within(w.count, lengths)
    requires forall v :: Reaches(u => Next(code, solo, u), w, v) ==> Allowed(code, solo, v)
    ensures IsRun(u => Next(code, solo, u), run) && run[0] == w && |run| <= 1 + Work(w, lengths)
    ensures run[|run| - 1].stack == [] && Complete(solo, run[|run| - 1], lengths)
  {
    var step, done := u => Next(code, solo, u), (v: Warp) => v.stack == [];
    var inv := v => InLockstep(solo, v) && Within(v.count, lengths) && Reaches(step, w, v);
    var measure := (v: Warp) => if |v.count| == |lengths| then Work(v, lengths) else 0;
    forall v | inv(v) && !done(v)
      ensures inv(step(v)) && 0 <= measure(step(v)) < measure(v)
    {
      ReachedKeepsWorking(code, solo, w, v, lengths);
    }
    RemainingDrops(w.count, w.count, lengths);
    ReachesItself(step, w);
    run := GetsDone(step, inv, done, measure, [w]);
    EmptyStackIsComplete(solo, run[|run| - 1], lengths);
  }
}
