/** The dataflow computation of postdominators and immediate postdominators of one function. */
module Postdominators {
  import opened ControlFlowGraph
  import opened FiniteSets

  // ----- set helpers -----

  /** Removes from `a` what is not in `b`, one element at a time. */
  method Intersect(a: set<nat>, b: set<nat>) returns (r: set<nat>)
    ensures r == a * b
  {
    r := a;
    var rest := a;
    while rest != {}
      invariant rest <= a
      invariant r == a - ((a - rest) - b)
      decreases rest
    {
      var x :| x in rest;
      if x !in b {
        r := r - {x};
      }
      rest := rest - {x};
    }
  }

  method IsEqual(a: set<nat>, b: set<nat>) returns (r: bool)
    ensures r <==> a == b
  {
    if |a| != |b| {
      return false;
    }
    var rest := b;
    while rest != {}
      invariant rest <= b && b - rest <= a
      decreases rest
    {
      var x :| x in rest;
      if x !in a {
        return false;
      }
      rest := rest - {x};
    }
    SubsetSize(b, a);
    return true;
  }

  // ----- the dataflow equations -----

  /** What the equations ask of block `h`: itself and whatever all its successors agree on. */
  ghost function Meet(g: Graph, ids: seq<set<nat>>, h: nat): set<nat>
    requires g.Valid() && |ids| == g.Size() && h < g.Size()
  {
    set d | d in Below(g.Size()) && (d == h || forall s :: s in g.succ[h] ==> d in ids[s])
  }

  /** The blocks that postdominate `n`. */
  ghost function PostdominatorsOf(g: Graph, n: nat): set<nat>
    requires g.Valid()
  {
    set d | d in Below(g.Size()) && g.Postdominates(d, n)
  }

  /** The state between updates: an over-approximation that the equations can only shrink. */
  ghost predicate Descending(g: Graph, ids: seq<set<nat>>)
    requires g.Valid()
  {
    && |ids| == g.Size()
    && ids[g.Exit()] == {g.Exit()}
    && (forall n :: 0 <= n < g.Size() ==> ids[n] <= Below(g.Size()))
    && (forall n :: 0 <= n < g.Exit() ==> Meet(g, ids, n) <= ids[n])
    && forall n :: 0 <= n < g.Size() ==> PostdominatorsOf(g, n) <= ids[n]
  }

  ghost function TotalSize(ids: seq<set<nat>>): nat {
    if ids == [] then 0 else |ids[|ids| - 1]| + TotalSize(ids[..|ids| - 1])
  }

  lemma TotalSizeDrops(ids: seq<set<nat>>, h: nat, t: set<nat>)
    requires h < |ids| && t < ids[h]
    ensures TotalSize(ids[h := t]) < TotalSize(ids)
  {
    var n := |ids| - 1;
    if h == n {
      SubsetSize(t, ids[h]);
      assert ids[h := t][..n] == ids[..n];
    } else {
      TotalSizeDrops(ids[..n], h, t);
      assert ids[h := t][..n] == ids[..n][h := t];
    }
  }

  lemma InitialIsDescending(g: Graph, ids: seq<set<nat>>)
    requires g.Valid() && |ids| == g.Size() && ids[g.Exit()] == {g.Exit()}
    requires forall n :: 0 <= n < g.Exit() ==> ids[n] == Below(g.Size())
    ensures Descending(g, ids)
  {
    forall d: nat | d in PostdominatorsOf(g, g.Exit())
      ensures d == g.Exit()
    {
      ExitPostdominators(g, d);
    }
  }

  /** One update of the fixpoint loop stays above the answer and below the old sets. */
  lemma UpdateStaysDescending(g: Graph, ids: seq<set<nat>>, h: nat)
    requires g.Valid() && Descending(g, ids) && h < g.Exit()
    ensures Descending(g, ids[h := Meet(g, ids, h)])
  {
    var ids' := ids[h := Meet(g, ids, h)];
    forall n | 0 <= n < g.Exit()
      ensures Meet(g, ids', n) <= ids'[n]
    {
      assert Meet(g, ids', n) <= Meet(g, ids, n);
    }
    forall d | d in PostdominatorsOf(g, h)
      ensures d in ids'[h]
    {
      forall s | s in g.succ[h] && d != h
        ensures d in ids[s]
      {
        SuccessorIsPostdominated(g, d, h, s);
        assert d in PostdominatorsOf(g, s);
      }
    }
  }

  /** At a fixpoint, a block in the set of `p[0]` is met on the way along `p`. */
  lemma {:induction false} FixpointIsOnEveryPath(g: Graph, ids: seq<set<nat>>, d: nat, p: seq<nat>)
    requires g.Valid() && Descending(g, ids)
    requires forall n :: 0 <= n < g.Exit() ==> ids[n] == Meet(g, ids, n)
    requires p != [] && g.LeadsToExit(p[0], p) && d in ids[p[0]]
    ensures d in p
  {
    if p[0] == g.Exit() || p[0] == d {
      assert d == p[0];
    } else {
      SuffixLeadsToExit(g, p[0], p, 1);
      assert d in Meet(g, ids, p[0]) && p[1] in g.succ[p[0]];
      FixpointIsOnEveryPath(g, ids, d, p[1..]);
    }
  }

  lemma FixpointIsExact(g: Graph, ids: seq<set<nat>>)
    requires g.Valid() && Descending(g, ids)
    requires forall n :: 0 <= n < g.Exit() ==> ids[n] == Meet(g, ids, n)
    ensures forall n :: 0 <= n < g.Size() ==> ids[n] == PostdominatorsOf(g, n)
  {
    forall n, d | 0 <= n < g.Size() && d in ids[n]
      ensures d in PostdominatorsOf(g, n)
    {
      forall p | g.LeadsToExit(n, p)
        ensures d in p
      {
        FixpointIsOnEveryPath(g, ids, d, p);
      }
    }
  }

  // ----- pruning to the immediate postdominator -----

  ghost function StrictPostdominatorsOf(g: Graph, n: nat): set<nat>
    requires g.Valid()
  {
    PostdominatorsOf(g, n) - {n}
  }

  /** The strict postdominators of `n` that no candidate below `k` is strictly closer than. */
  ghost function Unbeaten(g: Graph, n: nat, k: nat): set<nat>
    requires g.Valid()
  {
    set t | t in StrictPostdominatorsOf(g, n)
      && forall s :: s < k && s in StrictPostdominatorsOf(g, n) && s != t ==> t !in PostdominatorsOf(g, s)
  }

  /** A candidate already beaten beats nobody that is still standing. */
  lemma BeatenCandidateIsIdle(g: Graph, n: nat, k: nat)
    requires g.Valid() && g.AllReachExit() && n < g.Size()
    requires k !in Unbeaten(g, n, k)
    ensures Unbeaten(g, n, k + 1) == Unbeaten(g, n, k)
  {
    if k in StrictPostdominatorsOf(g, n) {
      var c :| c < k && c in StrictPostdominatorsOf(g, n) && k in PostdominatorsOf(g, c);
      forall t | t in Unbeaten(g, n, k) && t != k
        ensures t !in PostdominatorsOf(g, k)
      {
        if t in PostdominatorsOf(g, k) {
          PostdominanceIsTransitive(g, t, k, c);
          assert g.ReachesExit(k);
          if t == c {
            PostdominanceIsAntisymmetric(g, k, c);
          }
        }
      }
    }
  }

  lemma UnbeatenIsImmediate(g: Graph, n: nat)
    requires g.Valid() && g.AllReachExit() && n < g.Size()
    ensures n < g.Exit() ==> exists d: nat :: g.ImmediatelyPostdominates(d, n) && Unbeaten(g, n, g.Size()) == {d}
    ensures n == g.Exit() ==> Unbeaten(g, n, g.Size()) == {}
  {
    ExitPostdominators(g, 0);
    if n < g.Exit() {
      var d := ImmediatePostdominatorExists(g, n);
      forall t | t in StrictPostdominatorsOf(g, n)
        ensures t in Unbeaten(g, n, g.Size()) <==> t == d
      {
        assert g.StrictlyPostdominates(t, n);
        if t == d {
          forall s | s < g.Size() && s in StrictPostdominatorsOf(g, n) && s != d
            ensures d !in PostdominatorsOf(g, s)
          {
            assert g.StrictlyPostdominates(s, n) && g.ReachesExit(d);
            if d in PostdominatorsOf(g, s) {
              PostdominanceIsAntisymmetric(g, d, s);
            }
          }
        } else {
          assert t in PostdominatorsOf(g, d) && d in StrictPostdominatorsOf(g, n);
        }
      }
      assert d in StrictPostdominatorsOf(g, n);
      assert Unbeaten(g, n, g.Size()) == {d};
    } else {
      forall t | t in StrictPostdominatorsOf(g, n)
        ensures false
      {
        ExitPostdominators(g, t);
      }
    }
  }

  class FunctionInfo {
    const blocks: Graph
    var postdominatorIds: seq<set<nat>>
    var tmpIds: seq<set<nat>>
    /** -1 where no immediate postdominator was assigned. */
    var immediatePostdominatorId: seq<int>

    constructor (blocks: Graph)
      ensures this.blocks == blocks
      ensures postdominatorIds == seq(blocks.Size(), _ => {})
      ensures immediatePostdominatorId == seq(blocks.Size(), _ => -1)
    {
      this.blocks := blocks;
      postdominatorIds := seq(blocks.Size(), _ => {});
      tmpIds := seq(blocks.Size(), _ => {});
      immediatePostdominatorId := seq(blocks.Size(), _ => -1);
    }

    ghost predicate PostdominatorsFound()
      reads this
    {
      && blocks.Valid()
      && |postdominatorIds| == blocks.Size()
      && forall n :: 0 <= n < blocks.Size() ==> postdominatorIds[n] == PostdominatorsOf(blocks, n)
    }

    ghost predicate ImmediatePostdominatorsFound()
      reads this
    {
      && blocks.Valid()
      && |immediatePostdominatorId| == blocks.Size()
      && immediatePostdominatorId[blocks.Exit()] == -1
      && forall n :: 0 <= n < blocks.Exit() ==>
           && 0 <= immediatePostdominatorId[n]
           && blocks.ImmediatelyPostdominates(immediatePostdominatorId[n], n)
    }

    /** One application of the dataflow equation to block `h`. */
    method Transfer(h: nat) returns (t: set<nat>)
      requires blocks.Valid() && |postdominatorIds| == blocks.Size() && h < blocks.Size()
      ensures t == Meet(blocks, postdominatorIds, h)
    {
      t := Below(blocks.Size());
      var rest := blocks.succ[h];
      while rest != {}
        invariant rest <= blocks.succ[h]
        invariant t == set d | d in Below(blocks.Size())
                    && forall s :: s in blocks.succ[h] - rest ==> d in postdominatorIds[s]
        decreases rest
      {
        var s :| s in rest;
        t := Intersect(t, postdominatorIds[s]);
        rest := rest - {s};
      }
      t := t + {h};
    }

    /** One pass over all blocks but the exit, last block first. */
    method Sweep() returns (change: bool)
      requires blocks.Valid() && Descending(blocks, postdominatorIds)
      modifies this`postdominatorIds
      ensures Descending(blocks, postdominatorIds)
      ensures TotalSize(postdominatorIds) <= TotalSize(old(postdominatorIds))
      ensures change ==> TotalSize(postdominatorIds) < TotalSize(old(postdominatorIds))
      ensures !change ==> forall i :: 0 <= i < blocks.Exit() ==>
        postdominatorIds[i] == Meet(blocks, postdominatorIds, i)
    {
      change := false;
      for h := blocks.Exit() downto 0
        invariant Descending(blocks, postdominatorIds)
        invariant TotalSize(postdominatorIds) <= TotalSize(old(postdominatorIds))
        invariant change ==> TotalSize(postdominatorIds) < TotalSize(old(postdominatorIds))
        invariant !change ==>
          forall i :: h <= i < blocks.Exit() ==> postdominatorIds[i] == Meet(blocks, postdominatorIds, i)
      {
        var t := Transfer(h);
        var same := IsEqual(t, postdominatorIds[h]);
        if !same {
          change := true;
          TotalSizeDrops(postdominatorIds, h, t);
          UpdateStaysDescending(blocks, postdominatorIds, h);
          postdominatorIds := postdominatorIds[h := t];
        }
      }
    }

    /** The starting sets: the exit alone for the exit, every block for the others. */
    method AssumeAll()
      requires blocks.Valid()
      modifies this`postdominatorIds
      ensures Descending(blocks, postdominatorIds)
    {
      var n := blocks.Size();
      postdominatorIds := seq(n, i => if i == n - 1 then {n - 1} else Below(n));
      InitialIsDescending(blocks, postdominatorIds);
    }

    /** Terminates on every block graph, with the sets that the definition asks for. */
    method FindPostdominators()
      requires blocks.Valid()
      modifies this`postdominatorIds
      ensures PostdominatorsFound()
    {
      AssumeAll();
      var change := true;
      while change
        invariant Descending(blocks, postdominatorIds)
        invariant !change ==>
          forall i :: 0 <= i < blocks.Exit() ==> postdominatorIds[i] == Meet(blocks, postdominatorIds, i)
        decreases TotalSize(postdominatorIds), change
      {
        change := Sweep();
      }
      FixpointIsExact(blocks, postdominatorIds);
    }

    /** Drops from `tmpIds[n]` the candidates that candidate `s` is closer than. */
    method PruneBy(n: nat, s: nat)
      requires PostdominatorsFound() && n < blocks.Size() && |tmpIds| == blocks.Size()
      requires tmpIds[n] == Unbeaten(blocks, n, s) && s in tmpIds[n]
      modifies this`tmpIds
      ensures tmpIds == old(tmpIds)[n := Unbeaten(blocks, n, s + 1)]
    {
      for t := 0 to blocks.Size()
        invariant |tmpIds| == blocks.Size()
        invariant forall i :: 0 <= i < blocks.Size() && i != n ==> tmpIds[i] == old(tmpIds)[i]
        invariant forall d :: d in tmpIds[n] <==>
          d in old(tmpIds)[n] && (d < t && d != s ==> d !in postdominatorIds[s])
      {
        if t in tmpIds[n] && s != t {
          if t in postdominatorIds[s] {
            tmpIds := tmpIds[n := tmpIds[n] - {t}];
          }
        }
      }
      assert tmpIds[n] == Unbeaten(blocks, n, s + 1);
    }

    /** Leaves in every `tmpIds[n]` the candidates that no other candidate is closer than. */
    method PruneAll()
      requires PostdominatorsFound() && blocks.AllReachExit()
      modifies this`tmpIds
      ensures |tmpIds| == blocks.Size()
      ensures forall n :: 0 <= n < blocks.Exit() ==> tmpIds[n] == Unbeaten(blocks, n, blocks.Size())
      ensures tmpIds[blocks.Exit()] == {}
    {
      var size, ids := blocks.Size(), postdominatorIds;
      tmpIds := seq(size, i requires 0 <= i < size => ids[i] - {i});
      ExitHasNoStrictPostdominator(blocks);
      for n := size - 1 downto 0
        invariant |tmpIds| == size && tmpIds[size - 1] == {}
        invariant forall i :: 0 <= i < n ==> tmpIds[i] == StrictPostdominatorsOf(blocks, i)
        invariant forall i :: n <= i < size - 1 ==> tmpIds[i] == Unbeaten(blocks, i, size)
      {
        ghost var before := tmpIds;
        assert tmpIds[n] == Unbeaten(blocks, n, 0);
        for s := 0 to size
          invariant tmpIds == before[n := Unbeaten(blocks, n, s)]
        {
          if s in tmpIds[n] {
            PruneBy(n, s);
          } else {
            BeatenCandidateIsIdle(blocks, n, s);
          }
        }
      }
    }

    /** Leaves every block but the exit with its one immediate postdominator; the two checks of
        the source function hold: no block keeps two candidates, and all but the exit keep one. */
    method FindImmediatePostdominators()
      requires PostdominatorsFound() && blocks.AllReachExit()
      requires immediatePostdominatorId == seq(blocks.Size(), _ => -1)
      modifies this`tmpIds, this`immediatePostdominatorId
      ensures ImmediatePostdominatorsFound()
    {
      PruneAll();
      var size := blocks.Size();
      var numIpdoms := 0;
      for n := size downto 0
        invariant |immediatePostdominatorId| == size
        invariant immediatePostdominatorId[size - 1] == -1
        invariant |tmpIds| == size && tmpIds[size - 1] == {}
        invariant forall i :: 0 <= i < size - 1 ==> tmpIds[i] == Unbeaten(blocks, i, size)
        invariant forall i :: n <= i < size - 1 ==>
          0 <= immediatePostdominatorId[i] && blocks.ImmediatelyPostdominates(immediatePostdominatorId[i], i)
        invariant numIpdoms == if n == size then 0 else size - 1 - n
      {
        UnbeatenIsImmediate(blocks, n);
        assert |tmpIds[n]| <= 1;
        if tmpIds[n] != {} {
          var d :| d in tmpIds[n];
          immediatePostdominatorId := immediatePostdominatorId[n := d];
          numIpdoms := numIpdoms + 1;
        }
      }
      assert numIpdoms == size - 1;
    }
  }

  lemma ExitHasNoStrictPostdominator(g: Graph)
    requires g.Valid()
    ensures StrictPostdominatorsOf(g, g.Exit()) == {}
  {
    forall t | t in StrictPostdominatorsOf(g, g.Exit())
      ensures false
    {
      ExitPostdominators(g, t);
    }
  }
}
