/** Basic-block graphs, paths to the exit block, and the order that postdominance puts on blocks. */
module ControlFlowGraph {

  /** The basic blocks of one function: `succ[b]` are the successors of block `b`.
      The last block is the exit block. */
  datatype Graph = Graph(succ: seq<set<nat>>) {

    function Size(): nat {
      |succ|
    }

    ghost predicate Valid() {
      && 2 <= |succ|
      && forall b, s :: 0 <= b < |succ| && s in succ[b] ==> s < |succ|
    }

    function Exit(): nat
      requires Valid()
    {
      |succ| - 1
    }

    ghost predicate IsPath(p: seq<nat>) {
      && p != []
      && (forall i :: 0 <= i < |p| ==> p[i] < |succ|)
      && forall i :: 0 <= i < |p| - 1 ==> p[i + 1] in succ[p[i]]
    }

    /** A path from `n` that ends in the exit block. */
    ghost predicate LeadsToExit(n: nat, p: seq<nat>)
      requires Valid()
    {
      IsPath(p) && p[0] == n && p[|p| - 1] == Exit()
    }

    ghost predicate ReachesExit(n: nat)
      requires Valid()
    {
      exists p :: LeadsToExit(n, p)
    }

    ghost predicate AllReachExit()
      requires Valid()
    {
      forall n :: 0 <= n < |succ| ==> ReachesExit(n)
    }

    /** Every path from `n` to the exit contains `d`. */
    ghost predicate Postdominates(d: nat, n: nat)
      requires Valid()
    {
      forall p :: LeadsToExit(n, p) ==> d in p
    }

    ghost predicate StrictlyPostdominates(d: nat, n: nat)
      requires Valid()
    {
      d != n && d < |succ| && Postdominates(d, n)
    }

    /** `d` is the closest strict postdominator of `n`: all the others postdominate it. */
    ghost predicate ImmediatelyPostdominates(d: nat, n: nat)
      requires Valid()
    {
      && StrictlyPostdominates(d, n)
      && forall e :: StrictlyPostdominates(e, n) ==> Postdominates(e, d)
    }
  }

  /** A postdominator of a block, other than the block itself, postdominates its successors. */
  lemma SuccessorIsPostdominated(g: Graph, d: nat, n: nat, s: nat)
    requires g.Valid() && n < g.Size() && s in g.succ[n]
    requires g.Postdominates(d, n) && d != n
    ensures g.Postdominates(d, s)
  {
    forall p | g.LeadsToExit(s, p)
      ensures d in p
    {
      var q := [n] + p;
      assert g.LeadsToExit(n, q);
      assert d in q;
    }
  }

  /** The suffix of a path, from one of its blocks on. */
  lemma SuffixLeadsToExit(g: Graph, n: nat, p: seq<nat>, i: nat)
    requires g.Valid() && g.LeadsToExit(n, p) && i < |p|
    ensures g.LeadsToExit(p[i], p[i..])
  {
    var q := p[i..];
    forall k | 0 <= k < |q| - 1
      ensures q[k + 1] in g.succ[q[k]]
    {
      assert q[k] == p[i + k] && q[k + 1] == p[i + k + 1];
    }
  }

  /** Leaving a path at one of its blocks and following another path from there. */
  lemma Reroute(g: Graph, n: nat, p: seq<nat>, i: nat, q: seq<nat>)
    requires g.Valid() && g.LeadsToExit(n, p) && i < |p| && g.LeadsToExit(p[i], q)
    ensures g.LeadsToExit(n, p[..i] + q)
  {
    var r := p[..i] + q;
    forall k | 0 <= k < |r| - 1
      ensures r[k + 1] in g.succ[r[k]]
    {
      if k + 1 < i {
        assert r[k] == p[k] && r[k + 1] == p[k + 1];
      } else if k + 1 == i {
        assert r[k] == p[k] && r[k + 1] == q[0] == p[i];
      } else {
        assert r[k] == q[k - i] && r[k + 1] == q[k - i + 1];
      }
    }
  }

  lemma PostdominanceIsTransitive(g: Graph, d: nat, e: nat, n: nat)
    requires g.Valid() && g.Postdominates(d, e) && g.Postdominates(e, n)
    ensures g.Postdominates(d, n)
  {
    forall p | g.LeadsToExit(n, p)
      ensures d in p
    {
      var i :| 0 <= i < |p| && p[i] == e;
      SuffixLeadsToExit(g, n, p, i);
      assert d in p[i..];
    }
  }

  /** The last occurrence of a block in a sequence that contains it. */
  ghost function LastIndex(p: seq<nat>, d: nat): (i: nat)
    requires d in p
    ensures i < |p| && p[i] == d && forall k :: i < k < |p| ==> p[k] != d
  {
    if p[|p| - 1] == d then |p| - 1 else LastIndex(p[..|p| - 1], d)
  }

  lemma PostdominanceIsAntisymmetric(g: Graph, d: nat, e: nat)
    requires g.Valid() && g.ReachesExit(d)
    requires g.Postdominates(d, e) && g.Postdominates(e, d)
    ensures d == e
  {
    var p :| g.LeadsToExit(d, p);
    var i := LastIndex(p, d);
    SuffixLeadsToExit(g, d, p, i);
    assert e in p[i..];
    var j :| i <= j < |p| && p[j] == e;
    SuffixLeadsToExit(g, d, p, j);
    assert d in p[j..];
    var k :| j <= k < |p| && p[k] == d;
    assert k <= i;
  }

  /** The first block of a path that is one of two given blocks. */
  lemma FirstOfTwo(p: seq<nat>, d: nat, e: nat) returns (i: nat)
    requires d in p
    ensures i < |p| && p[i] in {d, e}
    ensures d !in p[..i] && e !in p[..i]
  {
    i := 0;
    while p[i] != d && p[i] != e
      invariant i < |p|
      invariant d !in p[..i] && e !in p[..i]
      invariant d in p[i..]
      decreases |p| - i
    {
      i := i + 1;
    }
  }

  /** A path that reaches `d` before `e`, cut there and continued around `e`. */
  lemma DetourAvoids(g: Graph, n: nat, p: seq<nat>, i: nat, d: nat, e: nat)
    requires g.Valid() && g.LeadsToExit(n, p) && i < |p| && p[i] == d
    requires e !in p[..i] && !g.Postdominates(e, d)
    ensures !g.Postdominates(e, n)
  {
    var q :| g.LeadsToExit(d, q) && e !in q;
    Reroute(g, n, p, i, q);
    assert e !in p[..i] + q;
  }

  /** The postdominators of a block that reaches the exit form a chain. */
  lemma PostdominatorsFormAChain(g: Graph, d: nat, e: nat, n: nat)
    requires g.Valid() && g.ReachesExit(n)
    requires g.Postdominates(d, n) && g.Postdominates(e, n)
    ensures g.Postdominates(d, e) || g.Postdominates(e, d)
  {
    if !g.Postdominates(d, e) && !g.Postdominates(e, d) {
      var p :| g.LeadsToExit(n, p);
      var i := FirstOfTwo(p, d, e);
      if p[i] == d {
        DetourAvoids(g, n, p, i, d, e);
      } else {
        DetourAvoids(g, n, p, i, e, d);
      }
    }
  }

  /** Only the exit postdominates the exit, and it postdominates every block. */
  lemma ExitPostdominators(g: Graph, d: nat)
    requires g.Valid()
    ensures g.Postdominates(d, g.Exit()) <==> d == g.Exit()
    ensures forall n :: g.Postdominates(g.Exit(), n)
  {
    assert g.LeadsToExit(g.Exit(), [g.Exit()]);
    forall n, p | g.LeadsToExit(n, p)
      ensures g.Exit() in p
    {
      assert p[|p| - 1] == g.Exit();
    }
  }

  /** A closest element of any set of strict postdominators. */
  lemma ClosestOf(g: Graph, n: nat, ds: set<nat>) returns (d: nat)
    requires g.Valid() && g.ReachesExit(n) && ds != {}
    requires forall e :: e in ds ==> g.StrictlyPostdominates(e, n)
    ensures d in ds && forall e :: e in ds ==> g.Postdominates(e, d)
    decreases ds
  {
    var x :| x in ds;
    if ds == {x} {
      d := x;
      forall p | g.LeadsToExit(x, p) ensures x in p { assert p[0] == x; }
    } else {
      var y := ClosestOf(g, n, ds - {x});
      PostdominatorsFormAChain(g, x, y, n);
      if g.Postdominates(x, y) {
        d := y;
      } else {
        d := x;
        forall e | e in ds
          ensures g.Postdominates(e, x)
        {
          if e == x {
            forall p | g.LeadsToExit(x, p) ensures x in p { assert p[0] == x; }
          } else {
            PostdominanceIsTransitive(g, e, y, x);
          }
        }
      }
    }
  }

  /** A block other than the exit that reaches the exit has exactly one immediate postdominator. */
  lemma ImmediatePostdominatorExists(g: Graph, n: nat) returns (d: nat)
    requires g.Valid() && g.AllReachExit() && n < g.Exit()
    ensures g.ImmediatelyPostdominates(d, n)
    ensures forall e :: g.ImmediatelyPostdominates(e, n) ==> e == d
  {
    assert g.ReachesExit(n);
    ExitPostdominators(g, 0);
    var ds := set e: nat | e < g.Size() && g.StrictlyPostdominates(e, n);
    assert g.StrictlyPostdominates(g.Exit(), n);
    assert g.Exit() in ds;
    d := ClosestOf(g, n, ds);
    forall e | g.ImmediatelyPostdominates(e, n)
      ensures e == d
    {
      assert g.ReachesExit(d);
      PostdominanceIsAntisymmetric(g, d, e);
    }
  }

  /** If a block strictly postdominated by `r` has `r` as a successor, its immediate postdominator is `r`. */
  lemma PostdominatingSuccessorIsImmediate(g: Graph, r: nat, n: nat, d: nat)
    requires g.Valid() && g.AllReachExit() && n < g.Size()
    requires g.StrictlyPostdominates(r, n) && r in g.succ[n]
    requires g.ImmediatelyPostdominates(d, n)
    ensures d == r
  {
    SuccessorIsPostdominated(g, d, n, r);
    assert g.ReachesExit(r);
    PostdominanceIsAntisymmetric(g, d, r);
  }
}
