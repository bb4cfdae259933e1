/** The depth of the reconvergence stack: without calls the entries' masks form a laminar family, which
    bounds the stack by twice the number of launched lanes. */
module StackDepth {
  import opened FiniteSets
  import opened SimtStack
  import opened StateMachine
  import opened WarpRun

  // ----- laminar families -----

  /** A set sits properly inside another one, or apart from it. */
  ghost predicate InsideOrApart(m: set<nat>, lower: set<nat>) {
    m < lower || m !! lower
  }

  /** Nonempty sets, each inside or apart from every earlier one. */
  ghost predicate Laminar(ms: seq<set<nat>>) {
    && (forall i :: 0 <= i < |ms| ==> ms[i] != {})
    && forall i, j :: 0 <= i < j < |ms| ==> InsideOrApart(ms[j], ms[i])
  }

  ghost function Keep(ms: seq<set<nat>>, p: set<nat> -> bool): (r: seq<set<nat>>)
    ensures forall m :: m in r ==> m in ms && p(m)
  {
    if ms == [] then [] else (if p(ms[0]) then [ms[0]] else []) + Keep(ms[1..], p)
  }

  lemma {:induction false} KeepIsLaminar(ms: seq<set<nat>>, p: set<nat> -> bool)
    requires Laminar(ms)
    ensures Laminar(Keep(ms, p))
  {
    if ms != [] {
      KeepIsLaminar(ms[1..], p);
      forall m | m in Keep(ms[1..], p)
        ensures InsideOrApart(m, ms[0])
      {
        var j :| 0 <= j < |ms[1..]| && ms[1..][j] == m;
        assert ms[j + 1] == m;
      }
    }
  }

  lemma {:induction false} KeepSplits(ms: seq<set<nat>>, p: set<nat> -> bool, q: set<nat> -> bool)
    requires forall m :: m in ms ==> p(m) != q(m)
    ensures |Keep(ms, p)| + |Keep(ms, q)| == |ms|
  {
    if ms != [] {
      KeepSplits(ms[1..], p, q);
    }
  }

  /** A laminar family in a set of n elements has at most 2n - 1 members, and 2n - 2 if all are proper subsets. */
  lemma {:induction false} LaminarSize(ms: seq<set<nat>>, s: set<nat>)
    requires Laminar(ms) && forall m :: m in ms ==> m <= s
    ensures ms != [] ==> |ms| <= 2 * |s| - 1
    ensures (forall m :: m in ms ==> m < s) && ms != [] ==> |ms| <= 2 * |s| - 2
    decreases |ms|
  {
    if ms != [] {
      var a, rest := ms[0], ms[1..];
      var inside, apart := (m: set<nat>) => m < a, (m: set<nat>) => m !! a;
      assert a in ms && a != {};
      forall m | m in rest
        ensures m in ms && inside(m) != apart(m)
      {
        var j :| 0 <= j < |rest| && rest[j] == m;
        assert ms[j + 1] == m && InsideOrApart(ms[j + 1], ms[0]);
      }
      KeepIsLaminar(rest, inside);
      KeepIsLaminar(rest, apart);
      KeepSplits(rest, inside, apart);
      LaminarSize(Keep(rest, inside), a);
      LaminarSize(Keep(rest, apart), s - a);
      SubsetSize(a, s);
      assert 1 <= |a|;
      assert a < s ==> 1 <= |s - a|;
    }
  }

  // ----- the masks of the stack -----

  function Masks(s: seq<Entry>): seq<set<nat>> {
    seq(|s|, i requires 0 <= i < |s| => s[i].mask)
  }

  ghost predicate CallFree(s: seq<Entry>) {
    forall i :: 0 <= i < |s| ==> s[i].kind.Normal?
  }

  /** A mask that may be pushed. */
  ghost predicate Fits(below: seq<Entry>, m: set<nat>) {
    m != {} && forall i :: 0 <= i < |below| ==> InsideOrApart(m, below[i].mask)
  }

  lemma PushFits(s: seq<Entry>, e: Entry)
    requires Laminar(Masks(s)) && Fits(s, e.mask)
    ensures Laminar(Masks(s + [e]))
  {
    assert Masks(s + [e]) == Masks(s) + [e.mask];
  }

  lemma BelowIsLaminar(s: seq<Entry>)
    requires s != [] && Laminar(Masks(s))
    ensures var n := |s| - 1; Laminar(Masks(s[..n])) && Fits(s[..n], s[n].mask)
  {
    var n := |s| - 1;
    assert Masks(s[..n]) == Masks(s)[..n];
    assert Masks(s)[n] == s[n].mask && s[n].mask in Masks(s);
    forall i | 0 <= i < n
      ensures InsideOrApart(s[n].mask, s[..n][i].mask)
    {
      assert InsideOrApart(Masks(s)[n], Masks(s)[i]);
    }
  }

  lemma SideFits(base: seq<Entry>, top: Entry, mask: set<nat>, next: seq<Pc>, p: Pc, recvgPc: Pc)
    requires Laminar(Masks(base)) && Fits(base, Lanes(mask, next, p))
    ensures Laminar(Masks(base + Side(top, mask, next, p, recvgPc)))
  {
    if Side(top, mask, next, p, recvgPc) == [] {
      assert base + [] == base;
    } else {
      PushFits(base, Entry(p, Lanes(mask, next, p), recvgPc, Normal));
    }
  }

  lemma DivergedIsLaminar(s: seq<Entry>, mask: set<nat>, next: seq<Pc>, p: Pc, q: Pc, recvgPc: Pc)
    requires s != [] && Laminar(Masks(s)) && s[|s| - 1].kind.Normal? && mask <= s[|s| - 1].mask && p != q
    requires Lanes(mask, next, p) != {} && Lanes(mask, next, q) != {}
    ensures Laminar(Masks(Diverged(s[..|s| - 1], s[|s| - 1], mask, next, p, q, recvgPc)))
  {
    var n := |s| - 1;
    var below, top, ps, qs := s[..n], s[n], Lanes(mask, next, p), Lanes(mask, next, q);
    var first, second := Side(top, mask, next, p, recvgPc), Side(top, mask, next, q, recvgPc);
    BelowIsLaminar(s);
    assert ps < top.mask && qs < top.mask && ps !! qs by {
      var l, l' :| l in ps && l' in qs;
      assert l !in qs && l' !in ps;
    }
    assert Fits(below, ps) && Fits(below, qs) by {
      forall i | 0 <= i < n
        ensures InsideOrApart(ps, below[i].mask) && InsideOrApart(qs, below[i].mask)
      {
        assert InsideOrApart(top.mask, below[i].mask);
      }
    }
    var base := below;
    if recvgPc != top.recvgPc {
      base := below + [top.(pc := recvgPc)];
      PushFits(below, top.(pc := recvgPc));
      assert base + first + second == base + (first + second);
    } else {
      SidesReplaceTop(below, top, mask, next, p, q);
    }
    SideFits(base, top, mask, next, p, recvgPc);
    SideFits(base + first, top, mask, next, q, recvgPc);
  }

  lemma ResolvedIsLaminar(s: seq<Entry>, mask: set<nat>, next: seq<Pc>, ps: seq<Pc>, recvgPc: Pc, op: OpType)
    requires s != [] && Laminar(Masks(s)) && CallFree(s) && op != CallOps && mask <= s[|s| - 1].mask
    requires |ps| <= 2 && (|ps| == 2 ==> ps[0] != ps[1])
    requires forall i :: 0 <= i < |ps| ==> Lanes(mask, next, ps[i]) != {}
    ensures var s' := Resolved(s, mask, next, ps, recvgPc, op); Laminar(Masks(s')) && CallFree(s')
  {
    var n := |s| - 1;
    var below, top := s[..n], s[n];
    BelowIsLaminar(s);
    if |ps| == 1 && !Reconverges(top, ps[0]) {
      var e := top.(pc := ps[0], mask := Lanes(mask, next, ps[0]));
      forall i | 0 <= i < n
        ensures InsideOrApart(e.mask, below[i].mask)
      {
        assert InsideOrApart(top.mask, below[i].mask);
      }
      PushFits(below, e);
    } else if |ps| == 2 {
      DivergedIsLaminar(s, mask, next, ps[0], ps[1], recvgPc);
    }
  }

  // ----- runs -----

  ghost predicate Stacked(w: Warp, launched: set<nat>) {
    && Laminar(Masks(w.stack)) && CallFree(w.stack)
    && forall i :: 0 <= i < |w.stack| ==> w.stack[i].mask <= launched
  }

  lemma ResolvedStaysWithin(s: seq<Entry>, mask: set<nat>, next: seq<Pc>, ps: seq<Pc>, recvgPc: Pc, op: OpType,
                            launched: set<nat>)
    requires s != [] && |ps| <= 2 && mask <= s[|s| - 1].mask && forall i :: 0 <= i < |s| ==> s[i].mask <= launched
    ensures var s' := Resolved(s, mask, next, ps, recvgPc, op); forall i :: 0 <= i < |s'| ==> s'[i].mask <= launched
  {
    assert forall p :: Lanes(mask, next, p) <= launched;
  }

  /** A step without a call, which moves the lanes of the top entry to at most two next PCs, as every update
      checks. It need not nest. */
  ghost predicate SplitsInTwo(code: Pc -> Instr, solo: Solo, w: Warp) {
    w.stack != [] ==>
      var top, count := w.stack[|w.stack| - 1], Counted(w.count, Executing(solo, w));
      && code(top.pc).op != CallOps
      && |NextPcs(top.mask * Live(solo, count), Pcs(solo, count))| <= 2
  }

  lemma StepStaysStacked(code: Pc -> Instr, solo: Solo, w: Warp, launched: set<nat>)
    requires Stacked(w, launched) && SplitsInTwo(code, solo, w)
    ensures Stacked(Next(code, solo, w), launched)
  {
    if w.stack != [] {
      var top, count := w.stack[|w.stack| - 1], Counted(w.count, Executing(solo, w));
      var mask, next := top.mask * Live(solo, count), Pcs(solo, count);
      var notTaken := NotTakenPc(top.pc, code(top.pc).size);
      PathsOfTop(mask, next, notTaken);
      var ps := Order(NextPcs(mask, next), notTaken);
      forall i | 0 <= i < |ps|
        ensures Lanes(mask, next, ps[i]) != {}
      {
        var l :| l in mask && next[l] == ps[i];
        assert l in Lanes(mask, next, ps[i]);
      }
      ResolvedIsLaminar(w.stack, mask, next, ps, code(top.pc).recvgPc, code(top.pc).op);
      ResolvedStaysWithin(w.stack, mask, next, ps, code(top.pc).recvgPc, code(top.pc).op, launched);
    }
  }

  /** In every call-free run, whether or not its branches nest, the stack never holds more than 2n - 1 entries for n
      launched lanes. */
  lemma StackIsBounded(code: Pc -> Instr, solo: Solo, warpSize: nat, startPc: Pc, launched: set<nat>, run: seq<Warp>)
    requires launched != {} && IsRun(w => Next(code, solo, w), run) && run[0] == Launched(warpSize, startPc, launched)
    requires forall i :: 0 <= i < |run| - 1 ==> SplitsInTwo(code, solo, run[i])
    ensures forall i :: 0 <= i < |run| ==> |run[i].stack| <= 2 * |launched| - 1
  {
    var step, allowed := w => Next(code, solo, w), w => SplitsInTwo(code, solo, w);
    var inv := w => Stacked(w, launched);
    forall w | inv(w) && allowed(w)
      ensures inv(step(w))
    {
      StepStaysStacked(code, solo, w, launched);
    }
    assert Masks(run[0].stack) == [launched];
    HoldsAlong(step, allowed, inv, run);
    forall i | 0 <= i < |run|
      ensures |run[i].stack| <= 2 * |launched| - 1
    {
      assert inv(run[i]);
      var ms := Masks(run[i].stack);
      forall m | m in ms
        ensures m <= launched
      {
        var k :| 0 <= k < |ms| && ms[k] == m;
        assert m == run[i].stack[k].mask;
      }
      LaminarSize(ms, launched);
      assert 1 <= |launched|;
    }
  }
}
