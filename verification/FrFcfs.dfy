/** The first-ready, first-come-first-served scheduler of a DRAM channel. */
module FrFcfs {
  import opened Options

  /** A request to one row of one bank, with the bytes sent to it and the bytes whose transfer is over. */
  class Request {
    const bank: nat
    const row: nat
    const nbytes: nat
    const isWrite: bool
    const isWriteback: bool
    var txbytes: nat
    var dqbytes: nat

    constructor (bank: nat, row: nat, nbytes: nat, isWrite: bool, isWriteback: bool)
      ensures this.bank == bank && this.row == row && this.nbytes == nbytes
      ensures this.isWrite == isWrite && this.isWriteback == isWriteback && txbytes == dqbytes == 0
    {
      this.bank, this.row, this.nbytes, this.isWrite, this.isWriteback := bank, row, nbytes, isWrite, isWriteback;
      txbytes, dqbytes := 0, 0;
    }
  }

  // ----- queues, newest request first -----

  /** The requests to one row, in the order of the queue. */
  ghost function OfRow(q: seq<Request>, row: nat): seq<Request> {
    if q == [] then []
    else OfRow(q[..|q| - 1], row) + if q[|q| - 1].row == row then [q[|q| - 1]] else []
  }

  /** The position of the oldest request to a row, or -1. */
  ghost function OldestOfRow(q: seq<Request>, row: nat): (i: int)
    ensures -1 <= i < |q|
  {
    if q == [] then -1
    else if q[|q| - 1].row == row then |q| - 1
    else OldestOfRow(q[..|q| - 1], row)
  }

  lemma {:induction false} OldestIsOldest(q: seq<Request>, row: nat)
    ensures var i := OldestOfRow(q, row);
      && (0 <= i ==> q[i].row == row)
      && forall j :: i < j < |q| ==> q[j].row != row
  {
    if q != [] && q[|q| - 1].row != row {
      OldestIsOldest(q[..|q| - 1], row);
    }
  }

  /** First ready, first come, first served. If some request of the queue goes to the row, the one at `i` does and no
      older one does; and otherwise it is the oldest of all. */
  ghost predicate FirstReady(q: seq<Request>, row: nat, i: nat) {
    && i < |q|
    && if exists k :: 0 <= k < |q| && q[k].row == row then
         q[i].row == row && forall j :: i < j < |q| ==> q[j].row != row
       else
         i == |q| - 1
  }

  lemma OldestIsFirstReady(q: seq<Request>, row: nat)
    requires q != []
    ensures FirstReady(q, row, if OldestOfRow(q, row) >= 0 then OldestOfRow(q, row) else |q| - 1)
  {
    OldestIsOldest(q, row);
  }

  ghost function Removed(q: seq<Request>, i: nat): seq<Request>
    requires i < |q|
  {
    q[..i] + q[i + 1..]
  }

  /** The queue without a request, searched from the oldest. */
  function Erased(q: seq<Request>, req: Request): seq<Request> {
    if q == [] then []
    else if q[|q| - 1] == req then q[..|q| - 1]
    else Erased(q[..|q| - 1], req) + [q[|q| - 1]]
  }

  lemma {:induction false} OfRowPrepend(req: Request, q: seq<Request>, row: nat)
    ensures OfRow([req] + q, row) == (if req.row == row then [req] else []) + OfRow(q, row)
  {
    var p := [req] + q;
    if q == [] {
      assert p[..0] == [];
    } else {
      assert p[..|p| - 1] == [req] + q[..|q| - 1];
      OfRowPrepend(req, q[..|q| - 1], row);
    }
  }

  lemma {:induction false} OfRowIsEmptyIff(q: seq<Request>, row: nat)
    ensures OfRow(q, row) == [] <==> OldestOfRow(q, row) == -1
  {
    if q != [] {
      OfRowIsEmptyIff(q[..|q| - 1], row);
    }
  }

  /** The last request of a row's bin is the oldest one of that row. */
  lemma {:induction false} OldestIsLastOfBin(q: seq<Request>, row: nat)
    requires OfRow(q, row) != []
    ensures var i, bin := OldestOfRow(q, row), OfRow(q, row); 0 <= i && q[i].row == row && bin[|bin| - 1] == q[i]
  {
    if q[|q| - 1].row != row {
      OldestIsLastOfBin(q[..|q| - 1], row);
    }
  }

  /** Erasing it from the queue removes just that request. */
  lemma {:induction false} ErasingRemovesOldest(q: seq<Request>, row: nat)
    requires OldestOfRow(q, row) != -1
    ensures var i := OldestOfRow(q, row); Erased(q, q[i]) == Removed(q, i)
  {
    var n, i := |q| - 1, OldestOfRow(q, row);
    if q[n].row == row {
      assert Removed(q, n) == q[..n];
    } else {
      ErasingRemovesOldest(q[..n], row);
      OldestIsOldest(q, row);
      assert q[..n][i] == q[i] != q[n];
      assert Removed(q, i) == Removed(q[..n], i) + [q[n]];
    }
  }

  /** What is left of its bin are the other requests of the row. */
  lemma {:induction false} BinWithoutOldest(q: seq<Request>, row: nat)
    requires OldestOfRow(q, row) != -1
    ensures var bin := OfRow(q, row); bin != [] && OfRow(Removed(q, OldestOfRow(q, row)), row) == bin[..|bin| - 1]
  {
    var n, i := |q| - 1, OldestOfRow(q, row);
    if q[n].row == row {
      assert Removed(q, n) == q[..n];
    } else {
      BinWithoutOldest(q[..n], row);
      assert Removed(q, i) == Removed(q[..n], i) + [q[n]];
      assert Removed(q, i)[..n - 1] == Removed(q[..n], i);
    }
  }

  lemma {:induction false} OtherBinsStay(q: seq<Request>, i: nat, row: nat)
    requires i < |q| && q[i].row != row
    ensures OfRow(Removed(q, i), row) == OfRow(q, row)
  {
    var n := |q| - 1;
    if i == n {
      assert Removed(q, n) == q[..n];
    } else {
      OtherBinsStay(q[..n], i, row);
      assert Removed(q, i) == Removed(q[..n], i) + [q[n]];
      assert Removed(q, i)[..n - 1] == Removed(q[..n], i);
    }
  }

  // ----- bins -----

  type Bins = map<nat, seq<Request>>

  ghost predicate BinMatches(q: seq<Request>, bins: Bins, row: nat) {
    (row in bins <==> OfRow(q, row) != []) && (row in bins ==> bins[row] == OfRow(q, row))
  }

  /** The bins hold, row by row, exactly the requests of the queue, in its order. */
  ghost predicate BinsMatch(q: seq<Request>, bins: Bins) {
    forall row :: BinMatches(q, bins, row)
  }

  function Extended(bins: Bins, req: Request): Bins {
    bins[req.row := [req] + if req.row in bins then bins[req.row] else []]
  }

  lemma AddedToBins(q: seq<Request>, bins: Bins, req: Request)
    requires BinsMatch(q, bins)
    ensures BinsMatch([req] + q, Extended(bins, req))
  {
    forall row
      ensures BinMatches([req] + q, Extended(bins, req), row)
    {
      assert BinMatches(q, bins, row);
      OfRowPrepend(req, q, row);
    }
  }

  /** The bins after the last request of one of them has been taken out. */
  function Shrunk(bins: Bins, row: nat): Bins
    requires row in bins && bins[row] != []
  {
    var rest := bins[row][..|bins[row]| - 1];
    if rest == [] then bins - {row} else bins[row := rest]
  }

  lemma TakenFromBins(q: seq<Request>, bins: Bins, row: nat)
    requires BinsMatch(q, bins) && row in bins && bins[row] != []
    ensures var i := OldestOfRow(q, row); 0 <= i && BinsMatch(Removed(q, i), Shrunk(bins, row))
  {
    assert BinMatches(q, bins, row);
    OldestIsLastOfBin(q, row);
    ErasingRemovesOldest(q, row);
    BinWithoutOldest(q, row);
    var i := OldestOfRow(q, row);
    forall r
      ensures BinMatches(Removed(q, i), Shrunk(bins, row), r)
    {
      assert BinMatches(q, bins, r);
      if r != row {
        OtherBinsStay(q, i, r);
      }
    }
  }

  ghost predicate BankOk(q: seq<Request>, bins: Bins, lastRow: Option<nat>, bank: nat) {
    && (forall i :: 0 <= i < |q| ==> q[i].bank == bank)
    && BinsMatch(q, bins)
    && (lastRow.Some? ==> lastRow.value in bins)
  }

  /** The first `n` banks are in order. */
  ghost predicate BanksOk(queue: seq<seq<Request>>, bins: seq<Bins>, lastRow: seq<Option<nat>>, n: nat) {
    n == 0 || (
      && BanksOk(queue, bins, lastRow, n - 1)
      && n <= |queue| && n <= |bins| && n <= |lastRow| && BankOk(queue[n - 1], bins[n - 1], lastRow[n - 1], n - 1))
  }

  lemma {:induction false} BankIsOk(queue: seq<seq<Request>>, bins: seq<Bins>, lastRow: seq<Option<nat>>, n: nat,
                                    b: nat)
    requires BanksOk(queue, bins, lastRow, n) && b < n
    ensures b < |queue| && b < |bins| && b < |lastRow| && BankOk(queue[b], bins[b], lastRow[b], b)
  {
    if b < n - 1 {
      BankIsOk(queue, bins, lastRow, n - 1, b);
    }
  }

  lemma {:induction false} BanksStayOk(
    queue: seq<seq<Request>>, bins: seq<Bins>, lastRow: seq<Option<nat>>, n: nat, b: nat,
    q: seq<Request>, bin: Bins, last: Option<nat>)
    requires BanksOk(queue, bins, lastRow, n) && b < |queue| && b < |bins| && b < |lastRow| && BankOk(q, bin, last, b)
    ensures BanksOk(queue[b := q], bins[b := bin], lastRow[b := last], n)
  {
    if n > 0 {
      BanksStayOk(queue, bins, lastRow, n - 1, b, q, bin, last);
    }
  }

  lemma {:induction false} EmptyBanksOk(n: nat, nbk: nat)
    requires n <= nbk
    ensures BanksOk(seq(nbk, _ => []), seq(nbk, _ => map[]), seq(nbk, _ => None), n)
  {
    if n > 0 {
      EmptyBanksOk(n - 1, nbk);
    }
  }

  ghost function Total(queues: seq<seq<Request>>): nat {
    if queues == [] then 0 else Total(queues[..|queues| - 1]) + |queues[|queues| - 1]|
  }

  lemma {:induction false} TotalUpdate(queues: seq<seq<Request>>, b: nat, q: seq<Request>)
    requires b < |queues|
    ensures Total(queues[b := q]) == Total(queues) - |queues[b]| + |q|
  {
    var n := |queues| - 1;
    if b == n {
      assert queues[b := q][..n] == queues[..n];
    } else {
      TotalUpdate(queues[..n], b, q);
      assert queues[b := q][..n] == queues[..n][b := q];
    }
  }

  class Scheduler {
    const nbk: nat
    var numPending: nat
    var queue: seq<seq<Request>>
    var bins: seq<Bins>
    /** The bin being drained in each bank, named by its row. */
    var lastRow: seq<Option<nat>>

    ghost predicate Valid()
      reads this
    {
      && |queue| == |bins| == |lastRow| == nbk
      && BanksOk(queue, bins, lastRow, nbk)
      && numPending == Total(queue)
    }

    constructor (nbk: nat)
      ensures Valid() && this.nbk == nbk && numPending == 0
      ensures queue == seq(nbk, _ => []) && lastRow == seq(nbk, _ => None)
    {
      this.nbk, numPending := nbk, 0;
      queue := seq(nbk, _ => []);
      bins := seq(nbk, _ => map[]);
      lastRow := seq(nbk, _ => None);
      new;
      EmptyTotal(nbk);
      EmptyBanksOk(nbk, nbk);
    }

    method AddReq(req: Request)
      requires Valid() && req.bank < nbk
      modifies this
      ensures Valid() && numPending == old(numPending) + 1 && lastRow == old(lastRow)
      ensures queue == old(queue)[req.bank := [req] + old(queue)[req.bank]]
    {
      var b := req.bank;
      BankIsOk(queue, bins, lastRow, nbk, b);
      AddedToBins(queue[b], bins[b], req);
      BanksStayOk(queue, bins, lastRow, nbk, b, [req] + queue[b], Extended(bins[b], req), lastRow[b]);
      assert lastRow[b := lastRow[b]] == lastRow;
      TotalUpdate(queue, b, [req] + queue[b]);
      numPending := numPending + 1;
      queue := queue[b := [req] + queue[b]];
      bins := bins[b := Extended(bins[b], req)];
    }

    /** Takes the oldest request of a bin, and stays at that bin until it is empty. */
    method Take(bank: nat, row: nat) returns (req: Request)
      requires Valid() && bank < nbk && row in bins[bank]
      modifies this
      ensures Valid() && OldestOfRow(old(queue)[bank], row) >= 0
      ensures var q := old(queue)[bank];
        var i := OldestOfRow(q, row);
        && req == q[i] && queue == old(queue)[bank := Removed(q, i)]
        && lastRow == old(lastRow)[bank := if OfRow(Removed(q, i), row) == [] then None else Some(row)]
        && numPending == old(numPending) - 1
    {
      ghost var q := queue[bank];
      BankIsOk(queue, bins, lastRow, nbk, bank);
      assert BinMatches(q, bins[bank], row);
      OldestIsLastOfBin(q, row);
      ErasingRemovesOldest(q, row);
      BinWithoutOldest(q, row);
      TakenFromBins(q, bins[bank], row);
      var bin := bins[bank][row];
      req := bin[|bin| - 1];
      TotalUpdate(queue, bank, Erased(q, req));
      var last := if |bin| == 1 then None else Some(row);
      BanksStayOk(queue, bins, lastRow, nbk, bank, Erased(queue[bank], req), Shrunk(bins[bank], row), last);
      lastRow := lastRow[bank := last];
      queue := queue[bank := Erased(queue[bank], req)];
      bins := bins[bank := Shrunk(bins[bank], row)];
      numPending := numPending - 1;
    }

    /** Takes the oldest request to the row being drained, or to the current row; failing that the oldest. */
    method Schedule(bank: nat, currRow: nat) returns (req: Option<Request>, ghost i: nat)
      requires Valid() && bank < nbk
      modifies this
      ensures Valid()
      ensures old(queue)[bank] == [] ==>
        req == None && queue == old(queue) && lastRow == old(lastRow) && numPending == old(numPending)
      ensures old(queue)[bank] != [] ==>
        var q, row := old(queue)[bank], if old(lastRow)[bank].Some? then old(lastRow)[bank].value else currRow;
        && FirstReady(q, row, i) && req == Some(q[i]) && queue == old(queue)[bank := q[..i] + q[i + 1..]]
        && lastRow == old(lastRow)[bank := if OfRow(q[..i] + q[i + 1..], q[i].row) == [] then None else Some(q[i].row)]
        && numPending == old(numPending) - 1
    {
      var row := currRow;
      BankIsOk(queue, bins, lastRow, nbk, bank);
      ghost var preferred := if lastRow[bank].Some? then lastRow[bank].value else currRow;
      assert BinMatches(queue[bank], bins[bank], preferred);
      OfRowIsEmptyIff(queue[bank], preferred);
      match lastRow[bank] {
        case Some(r) =>
          row := r;
        case None =>
          if queue[bank] == [] {
            return None, 0;
          }
          if currRow !in bins[bank] {
            row := queue[bank][|queue[bank]| - 1].row;
            assert BinMatches(queue[bank], bins[bank], row);
          }
      }
      i := if OldestOfRow(queue[bank], preferred) >= 0 then OldestOfRow(queue[bank], preferred) else |queue[bank]| - 1;
      assert i == OldestOfRow(queue[bank], row);
      assert FirstReady(queue[bank], preferred, i) && queue[bank][i].row == row by {
        OldestIsFirstReady(queue[bank], preferred);
        OldestIsOldest(queue[bank], row);
      }
      var next := Take(bank, row);
      req := Some(next);
    }
  }

  lemma {:induction false} EmptyTotal(n: nat)
    ensures Total(seq(n, _ => [])) == 0
  {
    if n > 0 {
      EmptyTotal(n - 1);
      assert seq<seq<Request>>(n, _ => [])[..n - 1] == seq<seq<Request>>(n - 1, _ => []);
    }
  }
}
