/** The reconvergence stack of one warp: the update performed after each warp instruction, and the
    invariant that keeps the lanes in lockstep. */
module SimtStack {
  import opened FiniteSets

  /** 32-bit program counters; all ones stands for "no PC". */
  type Pc = x: nat | x < 0x1_0000_0000

  const NULL_PC: Pc := 0xFFFF_FFFF

  datatype EntryType = Normal | Call

  /** The operation classes that the stack tells apart. */
  datatype OpType = Plain | Branch | CallOps | RetOps

  datatype Entry = Entry(pc: Pc, mask: set<nat>, recvgPc: Pc, kind: EntryType)

  const BLANK_ENTRY := Entry(NULL_PC, {}, NULL_PC, Normal)

  // ----- the paths a warp splits into -----

  function NextPcs(mask: set<nat>, next: seq<Pc>): set<Pc> {
    set l | l in mask && l < |next| :: next[l]
  }

  function Lanes(mask: set<nat>, next: seq<Pc>, p: Pc): set<nat> {
    set l | l in mask && l < |next| && next[l] == p
  }

  lemma LeastOf(s: set<Pc>) returns (m: Pc)
    requires s != {}
    ensures m in s && forall k :: k in s ==> m <= k
  {
    var x :| x in s;
    if s == {x} {
      return x;
    }
    var n := LeastOf(s - {x});
    m := if n < x then n else x;
    assert forall k :: k in s ==> k == x || k in s - {x};
  }

  lemma LeastExists(s: set<Pc>)
    requires s != {}
    ensures exists m: Pc :: m in s && forall k :: k in s ==> m <= k
  {
    var m := LeastOf(s);
  }

  ghost function Least(s: set<Pc>): (m: Pc)
    requires s != {}
    ensures m in s && forall k :: k in s ==> m <= k
  {
    LeastExists(s);
    var m :| m in s && forall k :: k in s ==> m <= k;
    m
  }

  /** The order in which paths are handled: fall-through first, then by ascending PC. */
  ghost function Order(paths: set<Pc>, notTaken: Pc): seq<Pc>
    decreases |paths|
  {
    if paths == {} then []
    else
      var first := if notTaken in paths then notTaken else Least(paths);
      [first] + Order(paths - {first}, notTaken)
  }

  lemma {:induction false} OrderListsPaths(paths: set<Pc>, notTaken: Pc)
    ensures var r := Order(paths, notTaken);
      && |r| == |paths|
      && (forall p :: p in r <==> p in paths)
      && forall i, j :: 0 <= i < j < |r| ==> r[i] != r[j]
    decreases |paths|
  {
    if paths != {} {
      var first := if notTaken in paths then notTaken else Least(paths);
      OrderListsPaths(paths - {first}, notTaken);
    }
  }

  lemma OrderListsMap(paths: map<Pc, set<nat>>, notTaken: Pc)
    ensures var r := Order(paths.Keys, notTaken);
      |r| == |paths| && (r == [] <==> paths == map[]) && (|r| == 2 ==> r[0] != r[1])
  {
    OrderListsPaths(paths.Keys, notTaken);
    assert |paths| == |paths.Keys|;
  }

  /** The fall-through path is handled before all others, and these by ascending PC. */
  lemma {:induction false} OrderIsAscending(paths: set<Pc>, notTaken: Pc, i: nat, j: nat)
    requires i < j < |Order(paths, notTaken)|
    ensures var r := Order(paths, notTaken); r[i] == notTaken || (r[j] != notTaken && r[i] < r[j])
    decreases |paths|
  {
    var first := if notTaken in paths then notTaken else Least(paths);
    var rest := Order(paths - {first}, notTaken);
    if i > 0 {
      OrderIsAscending(paths - {first}, notTaken, i - 1, j - 1);
    } else if notTaken !in paths {
      OrderListsPaths(paths - {first}, notTaken);
      assert rest[j - 1] in rest;
    }
  }

  /** The fall-through address wraps in 32 bits. */
  function NotTakenPc(pc: Pc, size: nat): Pc {
    (pc + size) % 0x1_0000_0000
  }

  // ----- what one update does -----

  /** An entry is discarded when its lanes are back at the reconvergence PC of an ordinary entry. */
  predicate Reconverges(top: Entry, p: Pc) {
    p == top.recvgPc && top.kind.Normal?
  }

  /** The entry for one side of a divergent step, unless that side is already where the sides meet. */
  function Side(top: Entry, mask: set<nat>, next: seq<Pc>, p: Pc, recvgPc: Pc): seq<Entry> {
    if Reconverges(top, p) || p == recvgPc then [] else [Entry(p, Lanes(mask, next, p), recvgPc, Normal)]
  }

  function Diverged(below: seq<Entry>, top: Entry, mask: set<nat>, next: seq<Pc>, p: Pc, q: Pc,
                    recvgPc: Pc): seq<Entry>
  {
    var sides := Side(top, mask, next, p, recvgPc) + Side(top, mask, next, q, recvgPc);
    if recvgPc != top.recvgPc then below + [top.(pc := recvgPc)] + sides
    else if sides == [] then below
    else below + [sides[0].(kind := top.kind)] + sides[1..]
  }

  /** The caller's entry resumes at the return PC, or is itself discarded there. */
  function Returned(below: seq<Entry>, p: Pc): seq<Entry>
    requires below != []
  {
    var caller := below[|below| - 1];
    if Reconverges(caller, p) then below[..|below| - 1]
    else below[|below| - 1 := caller.(pc := p)]
  }

  /** Calls, and returns from call entries, are handled apart. */
  predicate Special(top: Entry, op: OpType) {
    op == CallOps || (op == RetOps && top.kind.Call?)
  }

  /** The stack once the lanes `mask` of the top entry have left for the PCs `ps`, in that order. */
  function Resolved(s: seq<Entry>, mask: set<nat>, next: seq<Pc>, ps: seq<Pc>, recvgPc: Pc, op: OpType): seq<Entry>
    requires s != []
  {
    var n := |s| - 1;
    var top, below := s[n], s[..n];
    if ps == [] then below
    else if op == CallOps then s + [Entry(ps[0], Lanes(mask, next, ps[0]), NULL_PC, Call)]
    else if op == RetOps && top.kind.Call? && below != [] then Returned(below, ps[0])
    else if |ps| == 1 then
      if Reconverges(top, ps[0]) then below else below + [top.(pc := ps[0], mask := Lanes(mask, next, ps[0]))]
    else Diverged(below, top, mask, next, ps[0], ps[1], recvgPc)
  }

  /** The stack after the top entry has executed one instruction; `live` are the lanes not done. */
  ghost function Updated(s: seq<Entry>, live: set<nat>, next: seq<Pc>, recvgPc: Pc, op: OpType,
                         notTaken: Pc): seq<Entry>
    requires s != []
  {
    var mask := s[|s| - 1].mask * live;
    Resolved(s, mask, next, Order(NextPcs(mask, next), notTaken), recvgPc, op)
  }

  // ----- the lockstep invariant -----

  /** The index of the topmost entry that holds lane `l`, or -1. */
  ghost function Holder(s: seq<Entry>, l: nat): (i: int)
    ensures -1 <= i < |s|
    ensures i >= 0 ==> l in s[i].mask
    ensures forall j :: i < j < |s| ==> l !in s[j].mask
  {
    if s == [] then -1
    else if l in s[|s| - 1].mask then |s| - 1
    else Holder(s[..|s| - 1], l)
  }

  lemma HolderOfPush(s: seq<Entry>, e: Entry, l: nat)
    ensures Holder(s + [e], l) == if l in e.mask then |s| else Holder(s, l)
  {
    assert (s + [e])[..|s|] == s;
  }

  /** No live lane is lost, and the topmost entry that holds it has that lane's own PC. */
  ghost predicate Tracks(s: seq<Entry>, pcs: seq<Pc>, live: set<nat>) {
    forall l :: l in live ==> l < |pcs| && 0 <= Holder(s, l) && s[Holder(s, l)].pc == pcs[l]
  }

  /** How an entry must sit on the entries below it. Ordinary entries: the next entry of each of its live
      lanes is waiting at its reconvergence PC. Call entries: right above the caller's entry, with the
      same live lanes. */
  ghost predicate Seated(below: seq<Entry>, e: Entry, live: set<nat>) {
    && (e.kind.Normal? && e.recvgPc != NULL_PC ==>
          forall l :: l in live && l in e.mask ==> 0 <= Holder(below, l) && below[Holder(below, l)].pc == e.recvgPc)
    && (e.kind.Call? ==>
          below != [] && e.recvgPc == NULL_PC && e.mask * live == below[|below| - 1].mask * live)
  }

  ghost predicate WellNested(s: seq<Entry>, live: set<nat>) {
    s == [] || (WellNested(s[..|s| - 1], live) && Seated(s[..|s| - 1], s[|s| - 1], live))
  }

  ghost predicate Lockstep(s: seq<Entry>, pcs: seq<Pc>, live: set<nat>) {
    Tracks(s, pcs, live) && WellNested(s, live)
  }

  /** What the rest of the machine guarantees about one step: lanes of the top entry have moved to `next`,
      the others have kept their PC, at most two next PCs arise, and calls and returns do not split. */
  ghost predicate Steppable(s: seq<Entry>, pcs: seq<Pc>, next: seq<Pc>, live: set<nat>, live': set<nat>, op: OpType) {
    && s != []
    && live' <= live
    && |next| == |pcs|
    && (forall l :: l in live' ==> l < |next| && next[l] != NULL_PC)
    && (forall l :: l in live' && l !in s[|s| - 1].mask ==> next[l] == pcs[l])
    && var paths := NextPcs(s[|s| - 1].mask * live', next);
       && |paths| <= 2
       && (Special(s[|s| - 1], op) ==> |paths| <= 1)
  }

  /** The sides of a divergent step can be kept apart: if one of them is already at the reconvergence PC of
      an ordinary top entry, that is where this branch reconverges too. */
  ghost predicate SidesMeet(top: Entry, paths: set<Pc>, recvgPc: Pc) {
    |paths| == 2 && top.kind.Normal? && top.recvgPc in paths ==> recvgPc == top.recvgPc
  }

  /** The nesting condition of a divergent step: its sides can be kept apart, and under a call entry they
      reconverge somewhere. */
  ghost predicate Nested(top: Entry, paths: set<Pc>, recvgPc: Pc) {
    && SidesMeet(top, paths, recvgPc)
    && (|paths| == 2 && top.kind.Call? ==> recvgPc != NULL_PC)
  }

  // ----- the moves an update is made of -----

  lemma {:induction false} FewerLiveLanes(s: seq<Entry>, live: set<nat>, live': set<nat>)
    requires WellNested(s, live) && live' <= live
    ensures WellNested(s, live')
  {
    if s != [] {
      var below, e := s[..|s| - 1], s[|s| - 1];
      FewerLiveLanes(below, live, live');
      if e.kind.Call? {
        assert e.mask * live' == (e.mask * live) * live';
        assert below[|below| - 1].mask * live' == (below[|below| - 1].mask * live) * live';
      }
    }
  }

  /** Pushing an entry: from now on it tracks its lanes, wherever they were before. */
  lemma Push(s: seq<Entry>, pcs: seq<Pc>, next: seq<Pc>, tracked: set<nat>, live: set<nat>, e: Entry)
    requires Tracks(s, pcs, tracked) && WellNested(s, live) && Seated(s, e, live) && |next| == |pcs|
    requires forall l :: l in tracked && l !in e.mask ==> next[l] == pcs[l]
    requires forall l :: l in live && l in e.mask ==> l < |next| && next[l] == e.pc
    requires tracked <= live
    ensures Tracks(s + [e], next, tracked + e.mask * live) && WellNested(s + [e], live)
  {
    assert (s + [e])[..|s|] == s;
    forall l | l in tracked + e.mask * live
      ensures Holder(s + [e], l) == if l in e.mask then |s| else Holder(s, l)
    {
      HolderOfPush(s, e, l);
    }
  }

  /** Below the top entry, the lanes it does not hold are tracked already. */
  lemma Uncover(s: seq<Entry>, pcs: seq<Pc>, live: set<nat>)
    requires Lockstep(s, pcs, live) && s != []
    ensures Tracks(s[..|s| - 1], pcs, live - s[|s| - 1].mask) && WellNested(s[..|s| - 1], live)
  {
  }

  /** Removing the top entry once its lanes are all at its reconvergence PC. */
  lemma Pop(s: seq<Entry>, pcs: seq<Pc>, next: seq<Pc>, live: set<nat>)
    requires Lockstep(s, pcs, live) && s != [] && |next| == |pcs|
    requires forall l :: l in live && l !in s[|s| - 1].mask ==> next[l] == pcs[l]
    requires forall l :: l in live && l in s[|s| - 1].mask ==>
      s[|s| - 1].kind.Normal? && s[|s| - 1].recvgPc != NULL_PC && next[l] == s[|s| - 1].recvgPc
    ensures Lockstep(s[..|s| - 1], next, live)
  {
  }

  /** Replacing the top entry by one for the same live lanes, all of which have moved to its PC. */
  lemma Advance(s: seq<Entry>, pcs: seq<Pc>, next: seq<Pc>, live: set<nat>, e: Entry)
    requires Lockstep(s, pcs, live) && s != [] && |next| == |pcs|
    requires forall l :: l in live && l !in s[|s| - 1].mask ==> next[l] == pcs[l]
    requires e.mask * live == s[|s| - 1].mask * live && forall l :: l in live && l in e.mask ==> next[l] == e.pc
    requires e.kind == s[|s| - 1].kind && e.recvgPc == s[|s| - 1].recvgPc
    ensures Lockstep(s[..|s| - 1] + [e], next, live)
  {
    var top := s[|s| - 1];
    Uncover(s, pcs, live);
    forall l | l in live
      ensures l in e.mask <==> l in top.mask
    {
      assert l in e.mask * live <==> l in top.mask * live;
    }
    Push(s[..|s| - 1], pcs, next, live - top.mask, live, e);
    assert live - top.mask + e.mask * live == live;
  }

  /** Adding one side of a divergent step, or dropping it because its lanes are where the sides meet. */
  lemma PushSide(base: seq<Entry>, top: Entry, mask: set<nat>, pcs: seq<Pc>, next: seq<Pc>, next': seq<Pc>,
                 tracked: set<nat>, live: set<nat>, p: Pc, recvgPc: Pc)
    requires Tracks(base, pcs, tracked) && WellNested(base, live) && |next'| == |next| == |pcs|
    requires tracked <= live && mask <= live && forall l :: l in mask ==> l < |next|
    requires forall l :: l in tracked && l !in Lanes(mask, next, p) ==> next'[l] == pcs[l]
    requires forall l :: l in Lanes(mask, next, p) ==> next'[l] == p
    requires recvgPc != NULL_PC ==>
      forall l :: l in Lanes(mask, next, p) ==> 0 <= Holder(base, l) && base[Holder(base, l)].pc == recvgPc
    requires Reconverges(top, p) ==> p == recvgPc
    requires p != NULL_PC
    ensures var s' := base + Side(top, mask, next, p, recvgPc);
            Tracks(s', next', tracked + Lanes(mask, next, p)) && WellNested(s', live)
  {
    if p == recvgPc {
      assert base + [] == base;
    } else {
      var e := Entry(p, Lanes(mask, next, p), recvgPc, Normal);
      assert e.mask * live == e.mask;
      Push(base, pcs, next', tracked, live, e);
    }
  }

  // ----- the whole update -----

  lemma PathsOfTop(mask: set<nat>, next: seq<Pc>, notTaken: Pc)
    requires forall l :: l in mask ==> l < |next|
    requires |NextPcs(mask, next)| <= 2
    ensures var ps := Order(NextPcs(mask, next), notTaken);
      && |ps| == |NextPcs(mask, next)|
      && (forall i :: 0 <= i < |ps| ==> ps[i] in NextPcs(mask, next))
      && (ps == [] ==> mask == {})
      && (|ps| == 1 ==> Lanes(mask, next, ps[0]) == mask && forall l :: l in mask ==> next[l] == ps[0])
      && (|ps| == 2 ==> NextPcs(mask, next) == {ps[0], ps[1]} && ps[0] != ps[1])
      && (|ps| == 2 ==> Lanes(mask, next, ps[0]) + Lanes(mask, next, ps[1]) == mask)
      && (|ps| == 2 ==> Lanes(mask, next, ps[0]) != {} && Lanes(mask, next, ps[1]) != {})
  {
    var paths, ps := NextPcs(mask, next), Order(NextPcs(mask, next), notTaken);
    OrderListsPaths(paths, notTaken);
    forall l | l in mask
      ensures next[l] in ps
    {
      assert next[l] in paths;
    }
    if |ps| == 2 {
      assert ps[0] in paths && ps[1] in paths;
    }
  }

  /** Both sides of a divergent step, on a base whose lanes are where the sides meet. */
  lemma PushBothSides(base: seq<Entry>, top: Entry, mask: set<nat>, met: seq<Pc>, next: seq<Pc>,
                      tracked: set<nat>, live: set<nat>, p: Pc, q: Pc, recvgPc: Pc)
    requires Tracks(base, met, tracked) && WellNested(base, live) && |next| == |met|
    requires tracked <= live && mask <= live && tracked + mask == live && forall l :: l in live ==> l < |next|
    requires recvgPc != NULL_PC ==> tracked == live
    requires forall l :: l in mask ==> met[l] == recvgPc
    requires forall l :: l in live && l !in mask ==> next[l] == met[l]
    requires Lanes(mask, next, p) + Lanes(mask, next, q) == mask
    requires p != q && p != NULL_PC && q != NULL_PC
    requires (Reconverges(top, p) ==> p == recvgPc) && (Reconverges(top, q) ==> q == recvgPc)
    ensures Lockstep(base + Side(top, mask, next, p, recvgPc) + Side(top, mask, next, q, recvgPc), next, live)
  {
    var ps, qs := Lanes(mask, next, p), Lanes(mask, next, q);
    // The lanes once the first side has moved on.
    var half := seq(|met|, l requires 0 <= l < |met| => if l in ps then p else met[l]);
    PushSide(base, top, mask, met, next, half, tracked, live, p, recvgPc);
    var base' := base + Side(top, mask, next, p, recvgPc);
    PushSide(base', top, mask, half, next, next, tracked + ps, live, q, recvgPc);
    assert tracked + ps + qs == live;
  }

  /** A divergent step whose reconvergence PC is new: the top entry stays, waiting there. */
  lemma NewReconvergence(s: seq<Entry>, pcs: seq<Pc>, next: seq<Pc>, live: set<nat>, mask: set<nat>, p: Pc, q: Pc,
                         recvgPc: Pc)
    requires Lockstep(s, pcs, live) && s != [] && |next| == |pcs|
    requires forall l :: l in live && l !in s[|s| - 1].mask ==> next[l] == pcs[l]
    requires mask == s[|s| - 1].mask * live && Lanes(mask, next, p) + Lanes(mask, next, q) == mask
    requires p != q && p != NULL_PC && q != NULL_PC
    requires recvgPc != s[|s| - 1].recvgPc && !Reconverges(s[|s| - 1], p) && !Reconverges(s[|s| - 1], q)
    ensures Lockstep(Diverged(s[..|s| - 1], s[|s| - 1], mask, next, p, q, recvgPc), next, live)
  {
    var below, top := s[..|s| - 1], s[|s| - 1];
    // The lanes as they would stand if all of the top entry had moved to the reconvergence PC.
    var met := seq(|pcs|, l requires 0 <= l < |pcs| => if l in mask then recvgPc else pcs[l]);
    Advance(s, pcs, met, live, top.(pc := recvgPc));
    var base := below + [top.(pc := recvgPc)];
    PushBothSides(base, top, mask, met, next, live, live, p, q, recvgPc);
    var first, second := Side(top, mask, next, p, recvgPc), Side(top, mask, next, q, recvgPc);
    assert base + first + second == base + (first + second);
  }

  lemma SidesReplaceTop(below: seq<Entry>, top: Entry, mask: set<nat>, next: seq<Pc>, p: Pc, q: Pc)
    requires top.kind.Normal?
    ensures Diverged(below, top, mask, next, p, q, top.recvgPc)
         == below + Side(top, mask, next, p, top.recvgPc) + Side(top, mask, next, q, top.recvgPc)
  {
    var first, second := Side(top, mask, next, p, top.recvgPc), Side(top, mask, next, q, top.recvgPc);
    var sides := first + second;
    assert below + first + second == below + sides;
    if sides != [] {
      assert sides[0].(kind := top.kind) == sides[0];
      assert below + sides == below + [sides[0]] + sides[1..];
    }
  }

  /** A divergent step inside a region with the same reconvergence PC: the sides replace the top entry. */
  lemma SameReconvergence(s: seq<Entry>, pcs: seq<Pc>, next: seq<Pc>, live: set<nat>, mask: set<nat>, p: Pc, q: Pc)
    requires Lockstep(s, pcs, live) && s != [] && |next| == |pcs| && s[|s| - 1].kind.Normal?
    requires forall l :: l in live && l !in s[|s| - 1].mask ==> next[l] == pcs[l]
    requires mask == s[|s| - 1].mask * live && Lanes(mask, next, p) + Lanes(mask, next, q) == mask
    requires p != q && p != NULL_PC && q != NULL_PC
    ensures Lockstep(Diverged(s[..|s| - 1], s[|s| - 1], mask, next, p, q, s[|s| - 1].recvgPc), next, live)
  {
    var below, top := s[..|s| - 1], s[|s| - 1];
    var met := seq(|pcs|, l requires 0 <= l < |pcs| => if l in mask then top.recvgPc else pcs[l]);
    Uncover(s, pcs, live);
    if top.recvgPc != NULL_PC {
      Pop(s, pcs, met, live);
      PushBothSides(below, top, mask, met, next, live, live, p, q, top.recvgPc);
    } else {
      PushBothSides(below, top, mask, met, next, live - mask, live, p, q, top.recvgPc);
    }
    SidesReplaceTop(below, top, mask, next, p, q);
  }

  /** A step that meets the nesting condition keeps the lockstep invariant. */
  lemma NestedUpdateKeepsLockstep(s: seq<Entry>, pcs: seq<Pc>, next: seq<Pc>, live: set<nat>, live': set<nat>,
                                  recvgPc: Pc, op: OpType, notTaken: Pc)
    requires Lockstep(s, pcs, live) && Steppable(s, pcs, next, live, live', op)
    requires Nested(s[|s| - 1], NextPcs(s[|s| - 1].mask * live', next), recvgPc)
    ensures Lockstep(Updated(s, live', next, recvgPc, op, notTaken), next, live')
  {
    var n := |s| - 1;
    var below, top, mask := s[..n], s[n], s[n].mask * live';
    FewerLiveLanes(s, live, live');
    assert Lockstep(s, pcs, live');
    PathsOfTop(mask, next, notTaken);
    var ps := Order(NextPcs(mask, next), notTaken);
    assert forall l :: l in live' && l in top.mask ==> l in mask;
    if ps == [] {
      Pop(s, pcs, next, live');
    } else if op == CallOps {
      var e := Entry(ps[0], mask, NULL_PC, Call);
      assert e.mask * live' == mask;
      Push(s, pcs, next, live', live', e);
      assert live' + e.mask * live' == live';
    } else if op == RetOps && top.kind.Call? {
      ReturnKeepsLockstep(s, pcs, next, live', ps[0]);
    } else if |ps| == 1 {
      if Reconverges(top, ps[0]) {
        Pop(s, pcs, next, live');
      } else {
        assert mask * live' == mask;
        Advance(s, pcs, next, live', top.(pc := ps[0], mask := mask));
      }
    } else {
      assert ps[0] in NextPcs(mask, next) && ps[1] in NextPcs(mask, next);
      if recvgPc == top.recvgPc {
        SameReconvergence(s, pcs, next, live', mask, ps[0], ps[1]);
      } else {
        NewReconvergence(s, pcs, next, live', mask, ps[0], ps[1], recvgPc);
      }
    }
  }

  lemma ReturnKeepsLockstep(s: seq<Entry>, pcs: seq<Pc>, next: seq<Pc>, live: set<nat>, p: Pc)
    requires Lockstep(s, pcs, live) && s != [] && |next| == |pcs|
    requires s[|s| - 1].kind.Call? && p != NULL_PC
    requires forall l :: l in live ==> next[l] == if l in s[|s| - 1].mask then p else pcs[l]
    ensures 2 <= |s| && Lockstep(Returned(s[..|s| - 1], p), next, live)
  {
    var n := |s| - 1;
    var below := s[..n];
    var caller := below[n - 1];
    forall l | l in live
      ensures l in s[n].mask <==> l in caller.mask
    {
      assert l in s[n].mask * live <==> l in caller.mask * live;
    }
    // Without the call entry, the caller's entry holds the same lanes; only its PC is stale.
    Uncover(s, pcs, live);
    ResumeCaller(below, pcs, next, live, p);
  }

  lemma TrackedBelow(s: seq<Entry>, pcs: seq<Pc>, lanes: set<nat>)
    requires s != [] && Tracks(s, pcs, lanes) && lanes !! s[|s| - 1].mask
    ensures Tracks(s[..|s| - 1], pcs, lanes)
  {
    forall l | l in lanes
      ensures Holder(s[..|s| - 1], l) == Holder(s, l)
    {
      assert l !in s[|s| - 1].mask;
    }
  }

  /** The caller's entry is discarded when its lanes return to its reconvergence PC. */
  lemma CallerReconverges(under: seq<Entry>, caller: Entry, pcs: seq<Pc>, next: seq<Pc>, live: set<nat>, p: Pc)
    requires |next| == |pcs| && p != NULL_PC && Reconverges(caller, p)
    requires Tracks(under, pcs, live - caller.mask) && WellNested(under, live) && Seated(under, caller, live)
    requires forall l :: l in live ==> l < |pcs| && next[l] == if l in caller.mask then p else pcs[l]
    ensures Lockstep(under, next, live)
  {
    forall l | l in live
      ensures l < |next| && 0 <= Holder(under, l) && under[Holder(under, l)].pc == next[l]
    {
      assert l in caller.mask || l in live - caller.mask;
    }
  }

  /** Otherwise its lanes go on at the return PC. */
  lemma CallerGoesOn(under: seq<Entry>, caller: Entry, pcs: seq<Pc>, next: seq<Pc>, live: set<nat>, p: Pc)
    requires |next| == |pcs|
    requires Tracks(under, pcs, live - caller.mask) && WellNested(under, live) && Seated(under, caller, live)
    requires forall l :: l in live ==> l < |pcs| && next[l] == if l in caller.mask then p else pcs[l]
    ensures Lockstep(under + [caller.(pc := p)], next, live)
  {
    Push(under, pcs, next, live - caller.mask, live, caller.(pc := p));
    assert live - caller.mask + caller.mask * live == live;
  }

  lemma ResumeCaller(s: seq<Entry>, pcs: seq<Pc>, next: seq<Pc>, live: set<nat>, p: Pc)
    requires s != [] && |next| == |pcs| && p != NULL_PC && forall l :: l in live ==> l < |pcs|
    requires Tracks(s, pcs, live - s[|s| - 1].mask) && WellNested(s, live)
    requires forall l :: l in live ==> next[l] == if l in s[|s| - 1].mask then p else pcs[l]
    ensures Lockstep(Returned(s, p), next, live)
  {
    var under, caller := s[..|s| - 1], s[|s| - 1];
    TrackedBelow(s, pcs, live - caller.mask);
    if Reconverges(caller, p) {
      CallerReconverges(under, caller, pcs, next, live, p);
    } else {
      CallerGoesOn(under, caller, pcs, next, live, p);
      assert Returned(s, p) == under + [caller.(pc := p)];
    }
  }

  /** The lanes of the side already at the old reconvergence PC stay in the top entry, which waits elsewhere. */
  lemma UnnestedSideIsLost(below: seq<Entry>, top: Entry, mask: set<nat>, next: seq<Pc>, p: Pc, q: Pc, recvgPc: Pc,
                           l: nat)
    requires top.kind.Normal? && top.recvgPc in {p, q} && p != q && recvgPc != top.recvgPc
    requires l in Lanes(mask, next, top.recvgPc) && mask <= top.mask
    ensures var s' := Diverged(below, top, mask, next, p, q, recvgPc);
      Holder(s', l) == |below| && s'[|below|].pc == recvgPc != next[l]
  {
    var s' := Diverged(below, top, mask, next, p, q, recvgPc);
    var e := top.(pc := recvgPc);
    var base := below + [e];
    HolderOfPush(below, e, l);
    if s' != base {
      var other := s'[|below| + 1];
      assert s' == base + [other] && l !in other.mask;
      HolderOfPush(base, other, l);
    }
  }

  /** A call entry that keeps one side only no longer matches its caller's entry. */
  lemma SplitCallIsMisaligned(below: seq<Entry>, top: Entry, mask: set<nat>, next: seq<Pc>, p: Pc, q: Pc,
                              live: set<nat>)
    requires top.kind.Call? && top.recvgPc == NULL_PC && p != q && p != NULL_PC && q != NULL_PC
    requires below != [] && mask == top.mask * live == below[|below| - 1].mask * live
    requires Lanes(mask, next, q) != {}
    ensures !WellNested(Diverged(below, top, mask, next, p, q, NULL_PC), live)
  {
    var call := Entry(p, Lanes(mask, next, p), NULL_PC, Call);
    var l :| l in Lanes(mask, next, q);
    assert l in below[|below| - 1].mask * live && l !in call.mask * live;
    assert !Seated(below, call, live);
    var t := below + [call];
    assert t[..|t| - 1] == below && !WellNested(t, live);
    var s' := Diverged(below, top, mask, next, p, q, NULL_PC);
    assert s' == t + [Entry(q, Lanes(mask, next, q), NULL_PC, Normal)];
    assert s'[..|s'| - 1] == t;
  }

  /** Still, the two halves of a split call entry have the PCs of their lanes. */
  lemma SplitCallKeepsTracking(s: seq<Entry>, pcs: seq<Pc>, next: seq<Pc>, live: set<nat>, p: Pc, q: Pc)
    requires s != [] && Tracks(s, pcs, live) && |next| == |pcs|
    requires s[|s| - 1].kind.Call? && s[|s| - 1].recvgPc == NULL_PC && p != q && p != NULL_PC && q != NULL_PC
    requires forall l :: l in live && l !in s[|s| - 1].mask ==> next[l] == pcs[l]
    requires var mask := s[|s| - 1].mask * live; Lanes(mask, next, p) + Lanes(mask, next, q) == mask
    ensures Tracks(Diverged(s[..|s| - 1], s[|s| - 1], s[|s| - 1].mask * live, next, p, q, NULL_PC), next, live)
  {
    var below, top, mask := s[..|s| - 1], s[|s| - 1], s[|s| - 1].mask * live;
    var call, side := Entry(p, Lanes(mask, next, p), NULL_PC, Call), Entry(q, Lanes(mask, next, q), NULL_PC, Normal);
    var s' := Diverged(below, top, mask, next, p, q, NULL_PC);
    assert s' == below + [call] + [side];
    TrackedBelow(s, pcs, live - top.mask);
    forall l | l in live
      ensures l < |next| && 0 <= Holder(s', l) && s'[Holder(s', l)].pc == next[l]
    {
      HolderOfPush(below, call, l);
      HolderOfPush(below + [call], side, l);
      assert l in mask || l in live - top.mask;
    }
  }

  /** A divergent step whose sides cannot be kept apart leaves a live lane in an entry with another PC. */
  lemma UnmetSidesMisplaceALane(s: seq<Entry>, pcs: seq<Pc>, next: seq<Pc>, live: set<nat>, live': set<nat>,
                                recvgPc: Pc, op: OpType, notTaken: Pc)
    requires Lockstep(s, pcs, live) && Steppable(s, pcs, next, live, live', op)
    requires !SidesMeet(s[|s| - 1], NextPcs(s[|s| - 1].mask * live', next), recvgPc)
    ensures !Tracks(Updated(s, live', next, recvgPc, op, notTaken), next, live')
  {
    var n := |s| - 1;
    var below, top, mask := s[..n], s[n], s[n].mask * live';
    PathsOfTop(mask, next, notTaken);
    var ps := Order(NextPcs(mask, next), notTaken);
    var l :| l in Lanes(mask, next, top.recvgPc);
    UnnestedSideIsLost(below, top, mask, next, ps[0], ps[1], recvgPc, l);
    assert l in live';
  }

  lemma HolderOfTwo(a: Entry, b: Entry, l: nat)
    ensures Holder([a, b], l) == if l in b.mask then 1 else if l in a.mask then 0 else -1
  {
    HolderOfPush([], a, l);
    HolderOfPush([a], b, l);
    assert [] + [a] == [a] && [a] + [b] == [a, b];
  }

  /** There is such a step: lanes 0 and 1 are on their way to 24, where lane 2 waits. Lane 0 leaves for 24 by an
      instruction without a reconvergence PC, such as a predicated BREAK; lane 1 goes on at 16. Afterwards lane 0
      is held by an entry without a PC. */
  lemma BreakMisplacesALane()
    ensures var s := [Entry(24, {0, 1, 2}, NULL_PC, Normal), Entry(8, {0, 1}, 24, Normal)];
      var pcs: seq<Pc>, next: seq<Pc> := [8, 8, 24], [24, 16, 24];
      && Lockstep(s, pcs, {0, 1, 2}) && Steppable(s, pcs, next, {0, 1, 2}, {0, 1, 2}, Plain)
      && !Tracks(Updated(s, {0, 1, 2}, next, NULL_PC, Plain, 16), next, {0, 1, 2})
  {
    var bottom, top := Entry(24, {0, 1, 2}, NULL_PC, Normal), Entry(8, {0, 1}, 24, Normal);
    var s, live: set<nat> := [bottom, top], {0, 1, 2};
    var pcs: seq<Pc>, next: seq<Pc> := [8, 8, 24], [24, 16, 24];
    forall l | l in live
      ensures Holder(s, l) == if l < 2 then 1 else 0
    {
      HolderOfTwo(bottom, top, l);
    }
    assert s[..1] == [bottom] && [bottom][..0] == [];
    assert WellNested([], live) && Seated([], bottom, live) && WellNested([bottom], live);
    forall l | l in live && l in top.mask
      ensures Holder([bottom], l) == 0
    {
      HolderOfPush([], bottom, l);
      assert [] + [bottom] == [bottom];
    }
    assert Seated([bottom], top, live);
    assert top.mask * live == {0, 1} && next[0] == 24 && next[1] == 16;
    assert NextPcs(top.mask * live, next) == {24, 16};
    UnmetSidesMisplaceALane(s, pcs, next, live, live, NULL_PC, Plain, 16);
  }

  /** A call entry split by a branch without a reconvergence PC keeps its lanes at their PCs, but no longer
      matches its caller's entry. */
  lemma SplitCallTracksButIsUnseated(s: seq<Entry>, pcs: seq<Pc>, next: seq<Pc>, live: set<nat>, live': set<nat>,
                                     op: OpType, notTaken: Pc)
    requires Lockstep(s, pcs, live) && Steppable(s, pcs, next, live, live', op)
    requires s[|s| - 1].kind.Call? && |NextPcs(s[|s| - 1].mask * live', next)| == 2
    ensures Tracks(Updated(s, live', next, NULL_PC, op, notTaken), next, live')
    ensures !WellNested(Updated(s, live', next, NULL_PC, op, notTaken), live')
  {
    var n := |s| - 1;
    var below, top, mask := s[..n], s[n], s[n].mask * live';
    PathsOfTop(mask, next, notTaken);
    var ps := Order(NextPcs(mask, next), notTaken);
    assert ps[0] in NextPcs(mask, next) && ps[1] in NextPcs(mask, next);
    FewerLiveLanes(s, live, live');
    SplitCallIsMisaligned(below, top, mask, next, ps[0], ps[1], live');
    SplitCallKeepsTracking(s, pcs, next, live', ps[0], ps[1]);
  }

  /** One update loses no live lane and keeps each in an entry with its own PC exactly when the sides of a
      divergent step can be kept apart. */
  lemma UpdateTracksIffSidesMeet(s: seq<Entry>, pcs: seq<Pc>, next: seq<Pc>, live: set<nat>, live': set<nat>,
                                 recvgPc: Pc, op: OpType, notTaken: Pc)
    requires Lockstep(s, pcs, live) && Steppable(s, pcs, next, live, live', op)
    ensures Tracks(Updated(s, live', next, recvgPc, op, notTaken), next, live')
       <==> SidesMeet(s[|s| - 1], NextPcs(s[|s| - 1].mask * live', next), recvgPc)
  {
    var top, paths := s[|s| - 1], NextPcs(s[|s| - 1].mask * live', next);
    if !SidesMeet(top, paths, recvgPc) {
      UnmetSidesMisplaceALane(s, pcs, next, live, live', recvgPc, op, notTaken);
    } else if Nested(top, paths, recvgPc) {
      NestedUpdateKeepsLockstep(s, pcs, next, live, live', recvgPc, op, notTaken);
    } else {
      SplitCallTracksButIsUnseated(s, pcs, next, live, live', op, notTaken);
    }
  }

  /** One update keeps the invariant of whole runs, which later steps rely on, exactly when it nests. */
  lemma UpdateKeepsLockstepIffNested(s: seq<Entry>, pcs: seq<Pc>, next: seq<Pc>, live: set<nat>, live': set<nat>,
                                     recvgPc: Pc, op: OpType, notTaken: Pc)
    requires Lockstep(s, pcs, live) && Steppable(s, pcs, next, live, live', op)
    ensures Lockstep(Updated(s, live', next, recvgPc, op, notTaken), next, live')
       <==> Nested(s[|s| - 1], NextPcs(s[|s| - 1].mask * live', next), recvgPc)
  {
    var top, paths := s[|s| - 1], NextPcs(s[|s| - 1].mask * live', next);
    if Nested(top, paths, recvgPc) {
      NestedUpdateKeepsLockstep(s, pcs, next, live, live', recvgPc, op, notTaken);
    } else if SidesMeet(top, paths, recvgPc) {
      SplitCallTracksButIsUnseated(s, pcs, next, live, live', op, notTaken);
    } else {
      UnmetSidesMisplaceALane(s, pcs, next, live, live', recvgPc, op, notTaken);
    }
  }

  lemma OnlyPath(mask: set<nat>, next: seq<Pc>, notTaken: Pc, l: nat)
    requires mask <= Below(|next|) && l in mask && |NextPcs(mask, next)| <= 1
    ensures Order(NextPcs(mask, next), notTaken) == [next[l]] && Lanes(mask, next, next[l]) == mask
  {
    assert next[l] in NextPcs(mask, next);
    PathsOfTop(mask, next, notTaken);
    var ps := Order(NextPcs(mask, next), notTaken);
    assert |ps| == 1 && ps == [ps[0]];
  }

  /** A step that does not split the warp: the live lanes of the top entry, and only these, move on in it. They enter
      a new entry on a call; on a return and at the reconvergence PC of an ordinary entry they go on below. */
  lemma StepWithoutSplit(s: seq<Entry>, live: set<nat>, next: seq<Pc>, recvgPc: Pc, op: OpType, notTaken: Pc, l: nat)
    requires s != [] && s[|s| - 1].mask * live <= Below(|next|)
    requires |NextPcs(s[|s| - 1].mask * live, next)| <= 1 && l in s[|s| - 1].mask * live
    ensures var n, top, q, s' := |s| - 1, s[|s| - 1], next[l], Updated(s, live, next, recvgPc, op, notTaken);
      if op == CallOps then s' == s + [Entry(q, top.mask * live, NULL_PC, Call)]
      else if op == RetOps && top.kind.Call? && 0 < n then
        s' == if s[n - 1].kind.Normal? && s[n - 1].recvgPc == q then s[..n - 1]
              else s[..n - 1] + [s[n - 1].(pc := q)]
      else if top.kind.Normal? && top.recvgPc == q then s' == s[..n]
      else s' == s[..n] + [Entry(q, top.mask * live, top.recvgPc, top.kind)]
  {
    var n := |s| - 1;
    OnlyPath(s[n].mask * live, next, notTaken, l);
    if op == RetOps && s[n].kind.Call? && 0 < n {
      assert s[..n][..n - 1] == s[..n - 1];
      assert s[..n][n - 1 := s[n - 1].(pc := next[l])] == s[..n - 1] + [s[n - 1].(pc := next[l])];
    }
  }

  /** An entry whose lanes have all finished is popped. */
  lemma FinishedEntryIsPopped(s: seq<Entry>, live: set<nat>, next: seq<Pc>, recvgPc: Pc, op: OpType, notTaken: Pc)
    requires s != [] && s[|s| - 1].mask * live == {}
    ensures Updated(s, live, next, recvgPc, op, notTaken) == s[..|s| - 1]
  {
    assert NextPcs(s[|s| - 1].mask * live, next) == {};
  }

  /** A step that is no call or return splits the warp into two sides, of which `last` does not meet the other where
      it goes. It is `first` that falls through or, if neither does, has the smaller PC. */
  ghost predicate LeavesAfter(top: Entry, mask: set<nat>, next: seq<Pc>, recvgPc: Pc, op: OpType, notTaken: Pc,
                              first: Pc, last: Pc)
  {
    && first in NextPcs(mask, next) && last in NextPcs(mask, next) && first != last && !Special(top, op)
    && (first == notTaken || (last != notTaken && first < last))
    && last != recvgPc && !(top.kind.Normal? && last == top.recvgPc)
  }

  /** The side that executes next after a divergent step: the fall-through side is put on the stack first, so that
      the other side is on top of it; without a fall-through, the side with the larger PC is. */
  lemma LaterSideIsOnTop(s: seq<Entry>, live: set<nat>, next: seq<Pc>, recvgPc: Pc, op: OpType, notTaken: Pc,
                         first: Pc, last: Pc)
    requires s != [] && s[|s| - 1].mask * live <= Below(|next|) && |NextPcs(s[|s| - 1].mask * live, next)| <= 2
    requires LeavesAfter(s[|s| - 1], s[|s| - 1].mask * live, next, recvgPc, op, notTaken, first, last)
    ensures var mask, s' := s[|s| - 1].mask * live, Updated(s, live, next, recvgPc, op, notTaken);
      && OnTop(s', last, Lanes(mask, next, last), recvgPc)
      && (first != recvgPc && !(s[|s| - 1].kind.Normal? && first == s[|s| - 1].recvgPc) ==>
            OnTop(s'[..|s'| - 1], first, Lanes(mask, next, first), recvgPc))
  {
    var mask := s[|s| - 1].mask * live;
    var paths, ps := NextPcs(mask, next), Order(NextPcs(mask, next), notTaken);
    TwoElements(paths, first, last);
    PathsOfTop(mask, next, notTaken);
    OrderIsAscending(paths, notTaken, 0, 1);
    assert ps[0] == first && ps[1] == last;
  }

  ghost predicate OnTop(s: seq<Entry>, pc: Pc, mask: set<nat>, recvgPc: Pc) {
    s != [] && var e := s[|s| - 1]; e.pc == pc && e.mask == mask && e.recvgPc == recvgPc
  }

  /** In the stack `s'` after a divergent step the side that left last is on top. */
  ghost predicate LaterSideOnTop(s: seq<Entry>, live: set<nat>, next: seq<Pc>, recvgPc: Pc, op: OpType, notTaken: Pc,
                                 s': seq<Entry>)
    requires s != []
  {
    var top := s[|s| - 1];
    var mask := top.mask * live;
    forall first, last :: LeavesAfter(top, mask, next, recvgPc, op, notTaken, first, last) ==>
      OnTop(s', last, Lanes(mask, next, last), recvgPc)
  }

  lemma UpdatedHasLaterSideOnTop(s: seq<Entry>, live: set<nat>, next: seq<Pc>, recvgPc: Pc, op: OpType, notTaken: Pc)
    requires s != [] && s[|s| - 1].mask * live <= Below(|next|) && |NextPcs(s[|s| - 1].mask * live, next)| <= 2
    ensures LaterSideOnTop(s, live, next, recvgPc, op, notTaken, Updated(s, live, next, recvgPc, op, notTaken))
  {
    var top, s' := s[|s| - 1], Updated(s, live, next, recvgPc, op, notTaken);
    var mask := top.mask * live;
    forall first, last | LeavesAfter(top, mask, next, recvgPc, op, notTaken, first, last)
      ensures OnTop(s', last, Lanes(mask, next, last), recvgPc)
    {
      LaterSideIsOnTop(s, live, next, recvgPc, op, notTaken, first, last);
    }
  }

  // ----- the stack object -----

  /** Filling the scratch entry with one path that is not discarded at the old reconvergence PC. */
  ghost function Placed(s: seq<Entry>, path: Pc, lanes: set<nat>, split: bool, diverged: bool, topRecvgPc: Pc,
                        recvgPc: Pc): (r: seq<Entry>)
    requires s != []
    ensures r != []
  {
    var n := |s| - 1;
    var s1 := if split && !diverged && recvgPc != topRecvgPc then s[..n] + [s[n].(pc := recvgPc)] + [BLANK_ENTRY]
              else s;
    var m := |s1| - 1;
    if split && path == recvgPc then s1
    else s1[..m] + [s1[m].(pc := path, mask := lanes, recvgPc := if split then recvgPc else topRecvgPc)] + [BLANK_ENTRY]
  }

  /** The step has diverged once a first path of two was kept. */
  ghost predicate HasDiverged(top: Entry, ps: seq<Pc>, i: nat)
    requires i <= |ps|
  {
    0 < i && (HasDiverged(top, ps, i - 1) || (|ps| == 2 && !Reconverges(top, ps[i - 1])))
  }

  /** The stack while the paths are handled, `i` of them so far. */
  ghost function Pending(s: seq<Entry>, mask: set<nat>, next: seq<Pc>, ps: seq<Pc>, i: nat,
                         recvgPc: Pc): (r: seq<Entry>)
    requires s != [] && i <= |ps|
    ensures r != []
  {
    var top := s[|s| - 1];
    if i == 0 then s
    else
      var before := Pending(s, mask, next, ps, i - 1, recvgPc);
      var p := ps[i - 1];
      if Reconverges(top, p) then before
      else Placed(before, p, Lanes(mask, next, p), |ps| == 2, HasDiverged(top, ps, i - 1), top.recvgPc, recvgPc)
  }

  lemma PendingOne(s: seq<Entry>, mask: set<nat>, next: seq<Pc>, ps: seq<Pc>, recvgPc: Pc)
    requires s != [] && |ps| == 1
    ensures var top, below := s[|s| - 1], s[..|s| - 1];
      var r := Pending(s, mask, next, ps, 1, recvgPc);
      r[..|r| - 1] == if Reconverges(top, ps[0]) then below
                      else below + [top.(pc := ps[0], mask := Lanes(mask, next, ps[0]))]
  {
    assert Pending(s, mask, next, ps, 0, recvgPc) == s;
  }

  /** The first of two paths. */
  lemma PendingFirst(s: seq<Entry>, mask: set<nat>, next: seq<Pc>, ps: seq<Pc>, recvgPc: Pc)
    requires s != [] && |ps| == 2
    ensures var top, below := s[|s| - 1], s[..|s| - 1];
      var first := Side(top, mask, next, ps[0], recvgPc);
      Pending(s, mask, next, ps, 1, recvgPc) ==
        if Reconverges(top, ps[0]) then s
        else if recvgPc != top.recvgPc then below + [top.(pc := recvgPc)] + first + [BLANK_ENTRY]
        else if first == [] then s
        else below + [first[0].(kind := top.kind)] + [BLANK_ENTRY]
  {
    var top, below := s[|s| - 1], s[..|s| - 1];
    assert Pending(s, mask, next, ps, 0, recvgPc) == s == below + [top];
    var waiting := below + [top.(pc := recvgPc)];
    assert (waiting + [BLANK_ENTRY])[..|s|] == waiting;
    assert waiting + [] == waiting;
  }

  /** With both paths placed, dropping the scratch entry leaves the stack of a divergent step. */
  lemma PendingBoth(s: seq<Entry>, mask: set<nat>, next: seq<Pc>, ps: seq<Pc>, recvgPc: Pc)
    requires s != [] && |ps| == 2 && ps[0] != ps[1]
    ensures var r := Pending(s, mask, next, ps, 2, recvgPc);
      r[..|r| - 1] == Diverged(s[..|s| - 1], s[|s| - 1], mask, next, ps[0], ps[1], recvgPc)
  {
    if recvgPc != s[|s| - 1].recvgPc {
      PendingBothNew(s, mask, next, ps, recvgPc);
    } else {
      PendingBothSame(s, mask, next, ps);
    }
  }

  lemma PendingBothNew(s: seq<Entry>, mask: set<nat>, next: seq<Pc>, ps: seq<Pc>, recvgPc: Pc)
    requires s != [] && |ps| == 2 && ps[0] != ps[1] && recvgPc != s[|s| - 1].recvgPc
    ensures var r := Pending(s, mask, next, ps, 2, recvgPc);
      r[..|r| - 1] == Diverged(s[..|s| - 1], s[|s| - 1], mask, next, ps[0], ps[1], recvgPc)
  {
    var top, below := s[|s| - 1], s[..|s| - 1];
    PendingFirst(s, mask, next, ps, recvgPc);
    assert HasDiverged(top, ps, 1) <==> !Reconverges(top, ps[0]);
    var waiting := below + [top.(pc := recvgPc)];
    if Reconverges(top, ps[0]) {
      assert (waiting + [BLANK_ENTRY])[..|s|] == waiting;
    } else {
      var half := Pending(s, mask, next, ps, 1, recvgPc);
      assert half[..|half| - 1] == waiting + Side(top, mask, next, ps[0], recvgPc);
    }
  }

  lemma PendingBothSame(s: seq<Entry>, mask: set<nat>, next: seq<Pc>, ps: seq<Pc>)
    requires s != [] && |ps| == 2 && ps[0] != ps[1]
    ensures var top := s[|s| - 1];
      var r := Pending(s, mask, next, ps, 2, top.recvgPc);
      r[..|r| - 1] == Diverged(s[..|s| - 1], top, mask, next, ps[0], ps[1], top.recvgPc)
  {
    var top, below := s[|s| - 1], s[..|s| - 1];
    var first := Side(top, mask, next, ps[0], top.recvgPc);
    PendingFirst(s, mask, next, ps, top.recvgPc);
    if first != [] {
      var half := Pending(s, mask, next, ps, 1, top.recvgPc);
      assert half[..|half| - 1] == below + [first[0].(kind := top.kind)];
    }
  }

  lemma PendingAll(s: seq<Entry>, mask: set<nat>, next: seq<Pc>, ps: seq<Pc>, recvgPc: Pc, op: OpType)
    requires s != [] && |ps| <= 2 && (|ps| == 2 ==> ps[0] != ps[1])
    requires ps != [] ==> !Special(s[|s| - 1], op)
    ensures var r := Pending(s, mask, next, ps, |ps|, recvgPc);
      r[..|r| - 1] == Resolved(s, mask, next, ps, recvgPc, op)
  {
    if |ps| == 1 {
      PendingOne(s, mask, next, ps, recvgPc);
    } else if |ps| == 2 {
      PendingBoth(s, mask, next, ps, recvgPc);
    }
  }

  class Stack {
    const warpSize: nat
    var entries: seq<Entry>

    constructor (warpSize: nat)
      ensures this.warpSize == warpSize && entries == []
    {
      this.warpSize := warpSize;
      entries := [];
    }

    method Launch(startPc: Pc, activeMask: set<nat>)
      modifies this
      ensures entries == [Entry(startPc, activeMask, NULL_PC, Normal)]
    {
      entries := [BLANK_ENTRY.(pc := startPc, mask := activeMask)];
    }

    /** Groups the lanes that are not done by their next PC, highest lane first. */
    method DivergentPaths(topMask: set<nat>, threadDone: set<nat>, nextPc: seq<Pc>) returns (paths: map<Pc, set<nat>>)
      requires forall l :: l in topMask ==> l < |nextPc|
      requires forall l :: l in topMask && l !in threadDone ==> nextPc[l] != NULL_PC
      ensures paths.Keys == NextPcs(topMask - threadDone, nextPc)
      ensures forall p :: p in paths ==> paths[p] == Lanes(topMask - threadDone, nextPc, p)
    {
      paths := map[];
      var rest := topMask;
      while rest != {}
        invariant rest <= topMask
        invariant forall l :: l in topMask - threadDone ==> (l in rest <==> nextPc[l] !in paths)
        invariant forall p :: p in paths ==> p in NextPcs(topMask - threadDone, nextPc)
        invariant forall p :: p in paths ==> paths[p] == Lanes(topMask - threadDone, nextPc, p)
        decreases rest
      {
        ghost var before := rest;
        var groupPc, group := NULL_PC, {};
        for i := |nextPc| downto 0
          invariant group == if groupPc == NULL_PC then {} else
                               set l | l in before && i <= l && l !in threadDone && nextPc[l] == groupPc
          invariant rest == before - (set l | l in before && i <= l && l in threadDone) - group
          invariant groupPc == NULL_PC ==> forall l :: l in before && i <= l ==> l in threadDone
          invariant groupPc != NULL_PC ==> group != {}
        {
          if i in rest {
            if i in threadDone {
              rest := rest - {i};
            } else if groupPc == NULL_PC {
              groupPc := nextPc[i];
              group := group + {i};
              rest := rest - {i};
            } else if groupPc == nextPc[i] {
              group := group + {i};
              rest := rest - {i};
            }
          }
        }
        assert rest < before;
        if groupPc != NULL_PC {
          var l :| l in group;
          assert l in topMask - threadDone && nextPc[l] == groupPc;
          assert group == Lanes(topMask - threadDone, nextPc, groupPc);
          paths := paths[groupPc := group];
        }
      }
    }

    /** Takes the next path to handle out of the map. */
    method TakePath(paths: map<Pc, set<nat>>, notTaken: Pc) returns (path: Pc, lanes: set<nat>, rest: map<Pc, set<nat>>)
      requires paths != map[] || Order(paths.Keys, notTaken) != []
      ensures Order(paths.Keys, notTaken) != []
      ensures path in paths && path == Order(paths.Keys, notTaken)[0] && lanes == paths[path]
      ensures if notTaken in paths then path == notTaken else forall q :: q in paths ==> path <= q
      ensures Order(rest.Keys, notTaken) == Order(paths.Keys, notTaken)[1..]
      ensures forall p :: p in rest ==> p in paths && rest[p] == paths[p]
    {
      if notTaken in paths {
        path := notTaken;
      } else {
        var p :| p in paths;
        LeastExists(paths.Keys);
        path :| path in paths && forall q :: q in paths ==> path <= q;
      }
      lanes := paths[path];
      rest := paths - {path};
      assert rest.Keys == paths.Keys - {path};
    }

    /** Places one path on the stack, turning the top entry into a reconvergence entry when the step diverges. */
    method PlacePath(path: Pc, lanes: set<nat>, split: bool, diverged: bool, topRecvgPc: Pc, recvgPc: Pc)
      requires entries != []
      modifies this
      ensures entries == Placed(old(entries), path, lanes, split, diverged, topRecvgPc, recvgPc)
    {
      if split && !diverged {
        if recvgPc != topRecvgPc {
          entries := entries[..|entries| - 1] + [entries[|entries| - 1].(pc := recvgPc)];
          entries := entries + [BLANK_ENTRY];
        }
      }
      if split && path == recvgPc {
        return;
      }
      var scratch := entries[|entries| - 1];
      entries := entries[..|entries| - 1]
                 + [scratch.(pc := path, mask := lanes, recvgPc := if split then recvgPc else topRecvgPc)];
      entries := entries + [BLANK_ENTRY];
    }

    /** Pops the call entry and resumes the caller at the return PC. */
    method Return(path: Pc)
      requires 2 <= |entries|
      modifies this
      ensures entries == Returned(old(entries)[..|old(entries)| - 1], path)
    {
      entries := entries[..|entries| - 1];
      var caller := entries[|entries| - 1].(pc := path);
      entries := entries[|entries| - 1 := caller];
      if path == caller.recvgPc && caller.kind != Call {
        entries := entries[..|entries| - 1];
      }
    }

    /** Handles the `i`-th path; calls and returns are finished with their only path. */
    method HandlePath(path: Pc, lanes: set<nat>, top: Entry, recvgPc: Pc, op: OpType, numPaths: nat, diverged: bool,
                      ghost s: seq<Entry>, ghost mask: set<nat>, ghost next: seq<Pc>, ghost ps: seq<Pc>, ghost i: nat)
      returns (finished: bool, warpDiverged: bool)
      requires s != [] && top == s[|s| - 1] && i < |ps| == numPaths && ps[i] == path && lanes == Lanes(mask, next, path)
      requires entries == Pending(s, mask, next, ps, i, recvgPc) && diverged == HasDiverged(top, ps, i)
      requires Special(top, op) ==> |ps| == 1 && (op == RetOps ==> 2 <= |s|)
      modifies this
      ensures finished <==> Special(top, op)
      ensures if finished then entries == Resolved(s, mask, next, ps, recvgPc, op)
              else entries == Pending(s, mask, next, ps, i + 1, recvgPc) && warpDiverged == HasDiverged(top, ps, i + 1)
    {
      finished, warpDiverged := true, diverged;
      if op == CallOps {
        entries := entries + [BLANK_ENTRY.(pc := path, mask := lanes, kind := Call)];
        return;
      } else if op == RetOps && top.kind.Call? {
        Return(path);
        return;
      }
      finished := false;
      if !(path == top.recvgPc && top.kind != Call) {
        PlacePath(path, lanes, numPaths == 2, warpDiverged, top.recvgPc, recvgPc);
        warpDiverged := warpDiverged || numPaths == 2;
      }
    }

    /** Handles the paths one after the other. */
    method HandlePaths(pathMasks: map<Pc, set<nat>>, top: Entry, recvgPc: Pc, op: OpType, notTaken: Pc,
                       ghost mask: set<nat>, ghost next: seq<Pc>, ghost ps: seq<Pc>)
      returns (finished: bool)
      requires entries != [] && top == entries[|entries| - 1]
      requires ps == Order(pathMasks.Keys, notTaken) && |ps| == |pathMasks|
      requires forall p :: p in pathMasks ==> pathMasks[p] == Lanes(mask, next, p)
      requires Special(top, op) ==> |ps| <= 1 && (op == RetOps && ps != [] ==> 2 <= |entries|)
      modifies this
      ensures finished <==> Special(top, op) && ps != []
      ensures entries == if finished then Resolved(old(entries), mask, next, ps, recvgPc, op)
                         else Pending(old(entries), mask, next, ps, |ps|, recvgPc)
    {
      finished := false;
      var paths, warpDiverged, i := pathMasks, false, 0;
      while i < |pathMasks|
        invariant i <= |pathMasks| && Order(paths.Keys, notTaken) == ps[i..]
        invariant forall p :: p in paths ==> paths[p] == Lanes(mask, next, p)
        invariant entries == Pending(old(entries), mask, next, ps, i, recvgPc)
        invariant warpDiverged == HasDiverged(top, ps, i)
        invariant 0 < i ==> !Special(top, op)
      {
        var path, lanes, rest := TakePath(paths, notTaken);
        assert path == ps[i];
        paths := rest;
        finished, warpDiverged :=
          HandlePath(path, lanes, top, recvgPc, op, |pathMasks|, warpDiverged, old(entries), mask, next, ps, i);
        if finished {
          return;
        }
        i := i + 1;
      }
    }

    /** Handles the paths, then drops the scratch entry. */
    method ResolvePaths(pathMasks: map<Pc, set<nat>>, top: Entry, recvgPc: Pc, op: OpType, notTaken: Pc,
                        ghost mask: set<nat>, ghost next: seq<Pc>)
      requires entries != [] && top == entries[|entries| - 1] && |pathMasks| <= 2
      requires forall p :: p in pathMasks ==> pathMasks[p] == Lanes(mask, next, p)
      requires Special(top, op) ==> |pathMasks| <= 1 && (op == RetOps && pathMasks != map[] ==> 2 <= |entries|)
      modifies this
      ensures entries == Resolved(old(entries), mask, next, Order(pathMasks.Keys, notTaken), recvgPc, op)
    {
      ghost var ps := Order(pathMasks.Keys, notTaken);
      OrderListsMap(pathMasks, notTaken);
      var finished := HandlePaths(pathMasks, top, recvgPc, op, notTaken, mask, next, ps);
      if !finished {
        PendingAll(old(entries), mask, next, ps, recvgPc, op);
        entries := entries[..|entries| - 1];
      }
    }

    /** One update of the stack; the preconditions are the assertions of `simt_stack::update`. */
    method Update(threadDone: set<nat>, nextPc: seq<Pc>, recvgPc: Pc, op: OpType, instSize: nat, instPc: Pc)
      requires |nextPc| == warpSize && entries != []
      requires var top := entries[|entries| - 1];
        && top.pc == instPc && top.mask != {}
        && (forall l :: l in top.mask ==> l < warpSize && (l !in threadDone ==> nextPc[l] != NULL_PC))
        && var paths := NextPcs(top.mask * (Below(warpSize) - threadDone), nextPc);
           && |paths| <= 2
           && (Special(top, op) ==> |paths| <= 1 && (op == RetOps && |paths| == 1 ==> 2 <= |entries|))
      modifies this
      ensures entries ==
        Updated(old(entries), Below(warpSize) - threadDone, nextPc, recvgPc, op, NotTakenPc(instPc, instSize))
      ensures LaterSideOnTop(old(entries), Below(warpSize) - threadDone, nextPc, recvgPc, op,
                             (instPc + instSize) % 0x1_0000_0000, entries)
    {
      var top := entries[|entries| - 1];
      ghost var mask := top.mask * (Below(warpSize) - threadDone);
      assert mask == top.mask - threadDone;
      var notTaken := NotTakenPc(instPc, instSize);
      UpdatedHasLaterSideOnTop(entries, Below(warpSize) - threadDone, nextPc, recvgPc, op, notTaken);
      var paths := DivergentPaths(top.mask, threadDone, nextPc);
      assert |paths| == |paths.Keys|;
      ResolvePaths(paths, top, recvgPc, op, notTaken, mask, nextPc);
    }
  }
}
