/** The DRAM controller of one channel. */
module Dram {
  import opened Options
  import opened DramTiming
  import opened FrFcfs
  import opened RequestFlow
  import Bits
  import DelayQueue

  /** What the request that a bank serves needs next: its row opened, another row closed, or its data moved. */
  function Wanted(b: nat, r: Request, open: Option<nat>): Command {
    if open.None? then Activate(b, r.row)
    else if open.value != r.row then Precharge(b)
    else if r.isWrite then Write(b, r.row)
    else Read(b, r.row)
  }

  /** The command that a bank would send now for the request it serves. */
  function CommandFor(cfg: Config, c: Channel, mrq: Option<Request>, room: bool, j: nat): Option<Command> {
    if mrq.None? || j >= |c.banks| then None
    else
      var cmd := Wanted(j, mrq.value, if c.banks[j].active then Some(c.banks[j].row) else None);
      if c.Ready(cfg, cmd) && (cmd.Read? || cmd.Write? ==> room) then Some(cmd) else None
  }

  /** A bank can send a command for the request it serves: the one wanted is far enough from all commands so far, and
      there is room in the data queue if it moves data. */
  ghost predicate MayIssue(cfg: Config, trace: Trace, mrq: Option<Request>, room: bool, j: nat) {
    mrq.Some? && FarEnough(cfg, trace, Wanted(j, mrq.value, OpenRow(trace, j)))
    && (OpenRow(trace, j) == Some(mrq.value.row) ==> room)
  }

  lemma OffersIffMayIssue(cfg: Config, trace: Trace, mrq: Option<Request>, room: bool, j: nat)
    requires cfg.Valid() && ChannelAfter(cfg, trace).Some? && j < cfg.nbk
    ensures CommandFor(cfg, ChannelAfter(cfg, trace).value, mrq, room, j) ==
      if MayIssue(cfg, trace, mrq, room, j) then Some(Wanted(j, mrq.value, OpenRow(trace, j))) else None
  {
    var c := ChannelAfter(cfg, trace).value;
    ChannelFits(cfg, trace);
    if mrq.Some? {
      var cmd := Wanted(j, mrq.value, OpenRow(trace, j));
      assert OpenRow(trace, j) == if c.banks[j].active then Some(c.banks[j].row) else None by {
        RunKeepsTiming(cfg, trace);
      }
      ReadyIffAllowed(cfg, trace, cmd);
    }
  }

  /** The bank considered at turn `i` of a round over all banks that starts at `prio`. */
  function Turn(i: nat, prio: nat, nbk: nat): (j: nat)
    requires prio < nbk
  {
    if i + prio < nbk then i + prio else (i + prio - nbk) as nat
  }

  lemma TurnWrapsAround(i: nat, prio: nat, nbk: nat)
    requires prio < nbk && i < nbk
    ensures Turn(i, prio, nbk) == (i + prio) % nbk
  {
    if i + prio < nbk {
      Bits.SmallModulo(i + prio, nbk);
    } else {
      Bits.SmallModulo(i + prio - nbk, nbk);
      Bits.ModuloOnce(i + prio - nbk, nbk);
    }
  }

  /** The requests that are answered when they are finished. */
  ghost function Replies(finished: seq<Request>): seq<Request> {
    if finished == [] then []
    else
      var r := finished[|finished| - 1];
      Replies(finished[..|finished| - 1]) + if r.isWriteback then [] else [r]
  }

  lemma ResizedStaysShort<T>(q: seq<DelayQueue.Slot<T>>, minLen: nat, newMinLen: nat)
    ensures |DelayQueue.Resized(q, minLen, newMinLen)| <= Max(|q|, newMinLen)
    ensures minLen <= |q| ==> newMinLen <= |DelayQueue.Resized(q, minLen, newMinLen)|
    ensures DelayQueue.Items(DelayQueue.Resized(q, minLen, newMinLen)) == DelayQueue.Items(q)
  {
    DelayQueue.PaddingAddsNoItem(q, newMinLen);
    DelayQueue.TrimmingDropsNoItem(q, newMinLen);
  }

  /** The data queue has room for the burst that makes it switch from reading to writing, whatever it holds,
      if and only if the write latency is no larger than the read latency. */
  lemma SwitchToWriteFitsIff<T>(CL: nat, WL: nat)
    ensures (forall q: seq<DelayQueue.Slot<T>> :: |q| == CL ==> |DelayQueue.Resized(q, CL, WL)| < CL + 1) <==> WL <= CL
  {
    if WL <= CL {
      forall q: seq<DelayQueue.Slot<T>> | |q| == CL
        ensures |DelayQueue.Resized(q, CL, WL)| < CL + 1
      {
        ResizedStaysShort(q, CL, WL);
      }
    } else {
      var q: seq<DelayQueue.Slot<T>> := seq(CL, _ => DelayQueue.Bubble);
      DelayQueue.PaddingAddsNoItem(q, WL);
      assert |q| == CL && |DelayQueue.Resized(q, CL, WL)| == WL;
    }
  }

  ghost predicate DrainingBank(frfcfs: bool, lastRow: Option<nat>, mrq: Option<Request>, bank: Bank) {
    lastRow.Some? ==> frfcfs && lastRow.value == if mrq.Some? then mrq.value.row else bank.row
  }

  /** In each of the first `n` banks the bin being drained is that of the row served or open. */
  ghost predicate Draining(frfcfs: bool, lastRow: seq<Option<nat>>, mrq: seq<Option<Request>>, banks: seq<Bank>,
                           n: nat)
  {
    n == 0 || (
      && Draining(frfcfs, lastRow, mrq, banks, n - 1)
      && n <= |lastRow| && n <= |mrq| && n <= |banks| && DrainingBank(frfcfs, lastRow[n - 1], mrq[n - 1], banks[n - 1]))
  }

  lemma {:induction false} BankIsDraining(
    frfcfs: bool, lastRow: seq<Option<nat>>, mrq: seq<Option<Request>>, banks: seq<Bank>, n: nat, b: nat)
    requires Draining(frfcfs, lastRow, mrq, banks, n) && b < n
    ensures b < |lastRow| && b < |mrq| && b < |banks| && DrainingBank(frfcfs, lastRow[b], mrq[b], banks[b])
  {
    if b < n - 1 {
      BankIsDraining(frfcfs, lastRow, mrq, banks, n - 1, b);
    }
  }

  lemma {:induction false} BanksStayDraining(
    frfcfs: bool, lastRow: seq<Option<nat>>, mrq: seq<Option<Request>>, banks: seq<Bank>, n: nat,
    lastRow': seq<Option<nat>>, mrq': seq<Option<Request>>, banks': seq<Bank>, b: nat)
    requires Draining(frfcfs, lastRow, mrq, banks, n) && n <= |lastRow| && n <= |mrq| && n <= |banks|
    requires |lastRow'| == |lastRow| && |mrq'| == |mrq| && |banks'| == |banks|
    requires forall k :: 0 <= k < n && k != b ==>
      lastRow'[k] == lastRow[k] && mrq'[k] == mrq[k] && banks'[k].row == banks[k].row
    requires b < n ==> DrainingBank(frfcfs, lastRow'[b], mrq'[b], banks'[b])
    ensures Draining(frfcfs, lastRow', mrq', banks', n)
  {
    if n > 0 {
      BanksStayDraining(frfcfs, lastRow, mrq, banks, n - 1, lastRow', mrq', banks', b);
    }
  }

  lemma {:induction false} NoneIsDraining(
    frfcfs: bool, lastRow: seq<Option<nat>>, mrq: seq<Option<Request>>, banks: seq<Bank>, n: nat)
    requires n <= |lastRow| && n <= |mrq| && n <= |banks| && forall b :: 0 <= b < n ==> lastRow[b].None?
    ensures Draining(frfcfs, lastRow, mrq, banks, n)
  {
    if n > 0 {
      NoneIsDraining(frfcfs, lastRow, mrq, banks, n - 1);
    }
  }

  /** A bank may finish or keep its request, or take one to its open row or when no bin is being drained. */
  lemma ServedIsDraining(
    frfcfs: bool, lastRow: seq<Option<nat>>, mrq: seq<Option<Request>>, banks: seq<Bank>, n: nat, b: nat,
    serving: Option<Request>)
    requires Draining(frfcfs, lastRow, mrq, banks, n) && b < n <= |lastRow| && n <= |mrq| && n <= |banks|
    requires frfcfs ==> mrq[b].Some? && banks[b].row == mrq[b].value.row && (serving.Some? ==> serving == mrq[b])
    ensures Draining(frfcfs, lastRow, mrq[b := serving], banks, n)
  {
    BankIsDraining(frfcfs, lastRow, mrq, banks, n, b);
    BanksStayDraining(frfcfs, lastRow, mrq, banks, n, lastRow, mrq[b := serving], banks, b);
  }

  lemma SelectedIsDraining(
    frfcfs: bool, lastRow: seq<Option<nat>>, mrq: seq<Option<Request>>, banks: seq<Bank>, n: nat, b: nat, r: Request,
    last: Option<nat>)
    requires frfcfs && Draining(frfcfs, lastRow, mrq, banks, n) && b < n && (last.Some? ==> last.value == r.row)
    requires n <= |lastRow| && n <= |mrq| && n <= |banks|
    ensures Draining(frfcfs, lastRow[b := last], mrq[b := Some(r)], banks, n)
  {
    BanksStayDraining(frfcfs, lastRow, mrq, banks, n, lastRow[b := last], mrq[b := Some(r)], banks, b);
  }

  /** A bank that has no use for a new request, or none to choose from. */
  ghost predicate PassedOver(f: Flow, b: nat) {
    b < |f.serving| == |f.queues| && (f.serving[b].Some? || f.queues[b] == [])
  }

  /** The first `n` banks in turn are passed over. */
  ghost predicate AllPassedOver(f: Flow, n: nat, prio: nat) {
    n == 0 || (AllPassedOver(f, n - 1, prio) && prio < |f.serving| && PassedOver(f, Turn(n - 1, prio, |f.serving|)))
  }

  /** None of the first `n` banks in turn is free and has a request to choose. */
  ghost predicate NoneFree(f: Flow, n: nat, turn: nat) {
    && turn < |f.serving| == |f.queues| && n <= |f.serving|
    && forall k :: 0 <= k < n ==> var b := Turn(k, turn, |f.serving|); f.serving[b].Some? || f.queues[b] == []
  }

  lemma {:induction false} PassedOverIsNotFree(f: Flow, n: nat, turn: nat)
    requires AllPassedOver(f, n, turn) && turn < |f.serving| == |f.queues| && n <= |f.serving|
    ensures NoneFree(f, n, turn)
  {
    if n > 0 {
      PassedOverIsNotFree(f, n - 1, turn);
      assert PassedOver(f, Turn(n - 1, turn, |f.serving|));
    }
  }

  /** How many of the waiting arrivals enter a scheduler of the given size, which is 0 if it is unlimited: all of them
      unless it is full by then, and none for which it was full. */
  function Admissions(waiting: nat, pending: nat, size: nat): (n: nat)
    ensures n <= waiting && (n < waiting ==> 0 < size <= pending + n)
    ensures 0 < n && 0 < size ==> pending + n <= size
  {
    if size == 0 || pending + waiting <= size then waiting
    else if pending < size then size - pending
    else 0
  }

  function Admitting(n: nat): seq<Event> {
    seq(n, _ => Admit)
  }

  /** The oldest arrival goes to its bank if that is free. */
  function Forwarding(mrqq: seq<Request>, mrq: seq<Option<Request>>): seq<Event> {
    if mrqq != [] && mrqq[0].bank < |mrq| && mrq[mrqq[0].bank].None? then [Forward] else []
  }

  /** A free bank has taken the oldest request to its open row, or else the oldest. */
  ghost predicate Picks(f: Flow, banks: seq<Bank>, b: nat, before: seq<Event>, fed: seq<Event>) {
    && b < |banks| == |f.queues| == |f.serving| && f.serving[b].None?
    && fed != [] && fed[..|fed| - 1] == before
    && var e := fed[|fed| - 1]; e.Select? && e.bank == b && FirstReady(f.queues[b], banks[b].row, e.i)
  }

  /** The same outcome as the search for that bank finds it. */
  ghost predicate Found(f: Flow, banks: seq<Bank>, picked: Option<nat>, before: seq<Event>, turn: nat,
                        fed: seq<Event>, next: nat)
    requires turn < |banks|
  {
    && |f.serving| == |f.queues| == |banks|
    && match picked
       case None => fed == before && next == turn && AllPassedOver(f, |banks|, turn)
       case Some(i) =>
         && i < |banks| && AllPassedOver(f, i, turn) && next == (turn + 1) % |banks|
         && Picks(f, banks, Turn(i, turn, |banks|), before, fed)
  }

  lemma FoundFeeds(f: Flow, banks: seq<Bank>, picked: Option<nat>, before: seq<Event>, turn: nat, fed: seq<Event>,
                   next: nat)
    requires turn < |banks| && Found(f, banks, picked, before, turn, fed, next)
    ensures Feeds(f, banks, picked, before, turn, fed, next)
  {
    PassedOverIsNotFree(f, if picked.Some? then picked.value else |banks|, turn);
  }

  /** What feeding the first free bank in turn that has a request makes of a history and of the turn. */
  ghost predicate Feeds(f: Flow, banks: seq<Bank>, picked: Option<nat>, before: seq<Event>, turn: nat,
                        fed: seq<Event>, next: nat)
    requires turn < |banks|
  {
    match picked
    case None => fed == before && next == turn && NoneFree(f, |banks|, turn)
    case Some(i) =>
      && i < |banks| && NoneFree(f, i, turn) && next == (turn + 1) % |banks|
      && Picks(f, banks, Turn(i, turn, |banks|), before, fed)
  }

  /** The burst that a command sends. */
  function Sending(cmd: Option<Command>): seq<Event> {
    match cmd
    case Some(Read(b, _)) => [Send(b)]
    case Some(Write(b, _)) => [Send(b)]
    case _ => []
  }

  /** A row command passes the turn to the bank after its own. */
  function TurnAfter(cmd: Option<Command>, turn: nat, nbk: nat): nat
    requires 0 < nbk
  {
    match cmd
    case Some(Activate(b, _)) => (b + 1) % nbk
    case Some(Precharge(b)) => (b + 1) % nbk
    case _ => turn
  }

  /** The data queue once a command has been issued to the bank serving a request. */
  function QueueAfter(cfg: Config, q: DelayQueue.Queue<Request>, mrq: seq<Option<Request>>, cmd: Option<Command>)
    : DelayQueue.Queue<Request>
  {
    match cmd
    case Some(Read(b, _)) => if b < |mrq| && mrq[b].Some? then WithBurst(q, cfg.CL, mrq[b].value) else q
    case Some(Write(b, _)) => if b < |mrq| && mrq[b].Some? then WithBurst(q, cfg.WL, mrq[b].value) else q
    case _ => q
  }

  lemma {:induction false} FirstOf<T>(offers: seq<Option<T>>, i: nat)
    requires i < |offers| && First(offers[..i]).None?
    ensures First(offers[..i + 1]) == offers[i] && (offers[i].Some? ==> First(offers) == offers[i])
    decreases |offers|
  {
    assert offers[..i + 1][..i] == offers[..i];
    if i + 1 == |offers| {
      assert offers[..i + 1] == offers;
    } else {
      var rest := offers[..|offers| - 1];
      assert rest[..i] == offers[..i];
      FirstOf(rest, i);
    }
  }

  /** The data queue when a burst has entered it that leaves it after the given latency. */
  function WithBurst(q: DelayQueue.Queue<Request>, latency: nat, r: Request): DelayQueue.Queue<Request> {
    DelayQueue.Applied(DelayQueue.Applied(q, DelayQueue.SetMinLength(latency)), DelayQueue.Push(DelayQueue.Item(r)))
  }

  /** In the queue `q'` a burst of a request has taken the last place, at which it waits for the latency, or longer
      exactly if there is a burst before it that does. */
  ghost predicate Delays(q: DelayQueue.Queue<Request>, r: Request, latency: nat, q': DelayQueue.Queue<Request>) {
    && q'.slots != [] && q'.slots[|q'.slots| - 1] == DelayQueue.Item(r) && latency <= |q'.slots|
    && (0 < latency && (forall k :: latency - 1 <= k < |q.slots| ==> q.slots[k].Bubble?) ==> |q'.slots| == latency)
  }

  lemma BurstIsDelayed(q: DelayQueue.Queue<Request>, latency: nat, r: Request)
    requires DelayQueue.Tight(q)
    ensures Delays(q, r, latency, WithBurst(q, latency, r))
  {
    DelayQueue.ItemTakesPlace(q, latency, r);
  }

  /** The commands that the banks would send, in turn. */
  ghost function Offers(cfg: Config, c: Channel, mrq: seq<Option<Request>>, room: bool, prio: nat): seq<Option<Command>>
    requires prio < |mrq|
  {
    seq(|mrq|, i requires 0 <= i < |mrq| => CommandFor(cfg, c, mrq[Turn(i, prio, |mrq|)], room, Turn(i, prio, |mrq|)))
  }

  function First<T>(offers: seq<Option<T>>): Option<T> {
    if offers == [] then None
    else if First(offers[..|offers| - 1]).Some? then First(offers[..|offers| - 1])
    else offers[|offers| - 1]
  }

  lemma {:induction false} FirstIs<T>(offers: seq<Option<T>>) returns (i: nat)
    ensures i <= |offers| && forall k :: 0 <= k < i ==> offers[k].None?
    ensures First(offers) == if i < |offers| then offers[i] else None
    ensures i < |offers| ==> offers[i].Some?
  {
    if offers == [] {
      i := 0;
    } else {
      var n := |offers| - 1;
      i := FirstIs(offers[..n]);
      if i == n && offers[n].None? {
        i := n + 1;
      }
    }
  }

  /** The command of one cycle is that of the first bank in turn that can send one; if there is none, no bank can. */
  ghost predicate IssuesFirst(cfg: Config, trace: Trace, mrq: seq<Option<Request>>, room: bool, turn: nat,
                              cmd: Option<Command>)
    requires turn < |mrq|
  {
    if cmd.None? then
      forall i :: 0 <= i < |mrq| ==> !MayIssueAt(cfg, trace, mrq, room, turn, i)
    else
      exists i :: 0 <= i < |mrq| && MayIssueAt(cfg, trace, mrq, room, turn, i)
        && cmd.value == WantedAt(trace, mrq, turn, i)
        && forall k :: 0 <= k < i ==> !MayIssueAt(cfg, trace, mrq, room, turn, k)
  }

  ghost predicate MayIssueAt(cfg: Config, trace: Trace, mrq: seq<Option<Request>>, room: bool, turn: nat, i: nat)
    requires turn < |mrq| && i < |mrq|
  {
    var b := Turn(i, turn, |mrq|);
    MayIssue(cfg, trace, mrq[b], room, b)
  }

  ghost function WantedAt(trace: Trace, mrq: seq<Option<Request>>, turn: nat, i: nat): Command
    requires turn < |mrq| && i < |mrq| && mrq[Turn(i, turn, |mrq|)].Some?
  {
    var b := Turn(i, turn, |mrq|);
    Wanted(b, mrq[b].value, OpenRow(trace, b))
  }

  lemma FirstOfferIsIssued(cfg: Config, trace: Trace, c: Channel, mrq: seq<Option<Request>>, room: bool, turn: nat)
    requires cfg.Valid() && ChannelAfter(cfg, trace) == Some(c) && |mrq| == cfg.nbk && turn < cfg.nbk
    ensures IssuesFirst(cfg, trace, mrq, room, turn, First(Offers(cfg, c, mrq, room, turn)))
  {
    var offers := Offers(cfg, c, mrq, room, turn);
    var i := FirstIs(offers);
    forall k: nat | k < |mrq|
      ensures offers[k] ==
        if MayIssueAt(cfg, trace, mrq, room, turn, k) then Some(WantedAt(trace, mrq, turn, k)) else None
    {
      var b := Turn(k, turn, |mrq|);
      OffersIffMayIssue(cfg, trace, mrq[b], room, b);
    }
  }

  /** What a command does to the data queue and to the turn: a read enters the queue at the read latency, a write at the
      write latency, and a row command passes the turn on. */
  ghost predicate Follows(cfg: Config, q: DelayQueue.Queue<Request>, mrq: seq<Option<Request>>, turn: nat,
                          cmd: Option<Command>, q': DelayQueue.Queue<Request>, turn': nat)
    requires 0 < cfg.nbk
  {
    match cmd
    case Some(Read(b, _)) => b < |mrq| && mrq[b].Some? && Delays(q, mrq[b].value, cfg.CL, q') && turn' == turn
    case Some(Write(b, _)) => b < |mrq| && mrq[b].Some? && Delays(q, mrq[b].value, cfg.WL, q') && turn' == turn
    case Some(Activate(b, _)) => q' == q && turn' == (b + 1) % cfg.nbk
    case Some(Precharge(b)) => q' == q && turn' == (b + 1) % cfg.nbk
    case None => q' == q && turn' == turn
  }

  lemma CommandFollows(cfg: Config, trace: Trace, mrq: seq<Option<Request>>, turn: nat, cmd: Option<Command>,
                       q: DelayQueue.Queue<Request>)
    requires 0 < cfg.nbk && turn < |mrq| && DelayQueue.Tight(q)
    requires IssuesFirst(cfg, trace, mrq, |q.slots| < cfg.CL + 1, turn, cmd)
    ensures Follows(cfg, q, mrq, turn, cmd, QueueAfter(cfg, q, mrq, cmd), TurnAfter(cmd, turn, cfg.nbk))
  {
    if cmd.Some? && (cmd.value.Read? || cmd.value.Write?) {
      BurstIsDelayed(q, if cmd.value.Read? then cfg.CL else cfg.WL, mrq[cmd.value.bank].value);
    }
  }

  // ----- data moves as the requests say -----

  /** The reads and writes among the commands of a trace. */
  ghost function Columns(trace: Trace): seq<Command> {
    if trace == [] then []
    else
      var cmd := trace[|trace| - 1];
      Columns(trace[..|trace| - 1]) + if cmd.Some? && (cmd.value.Read? || cmd.value.Write?) then [cmd.value] else []
  }

  /** The command of a cycle moves the data of the request in service at its bank, if it moves data. */
  lemma OneTransfer(cfg: Config, trace: Trace, history: seq<Event>, room: bool, turn: nat, cmd: Option<Command>)
    requires 0 < cfg.atomSize
    requires var serving := Replay(cfg.nbk, cfg.atomSize, history).serving;
      turn < |serving| == cfg.nbk && IssuesFirst(cfg, trace, serving, room, turn, cmd)
    ensures Replay(cfg.nbk, cfg.atomSize, history + Sending(cmd)).transfers
         == Replay(cfg.nbk, cfg.atomSize, history).transfers + Columns([cmd])
  {
    assert [cmd][..0] == [] && Columns([cmd][..0]) == [];
    if Sending(cmd) == [] {
      assert history + [] == history;
    } else {
      var b := cmd.value.bank;
      ServedIsKnown(cfg.nbk, cfg.atomSize, history, b);
      ReplayNext(cfg.nbk, cfg.atomSize, history, Send(b));
    }
  }

  lemma ColumnsAppend(trace: Trace, cmd: Option<Command>)
    ensures Columns(trace + [cmd]) == Columns(trace) + Columns([cmd])
  {
    assert (trace + [cmd])[..|trace|] == trace && [cmd][..0] == [] && Columns([cmd][..0]) == [];
  }

  /** What a request is made of when it arrives. */
  datatype Arrival = Arrival(bank: nat, row: nat, nbytes: nat, isWrite: bool, isWriteback: bool)

  predicate MadeOf(r: Request, a: Arrival) {
    && r.bank == a.bank && r.row == a.row && r.nbytes == a.nbytes && r.isWrite == a.isWrite
    && r.isWriteback == a.isWriteback
  }

  class Controller {
    const cfg: Config
    const frfcfs: bool
    const sched: Scheduler
    /** The slots of the data queue, whose operations are those of the delay queue. */
    var rwq: DelayQueue.Queue<Request>
    var mrqq: seq<Request>
    var returnq: seq<Request>
    /** The request being served by each bank. */
    var mrq: seq<Option<Request>>
    /** The counters and row states of the channel, its banks and its bank groups. */
    var channel: Channel
    var prio: nat
    var writing: bool
    /** What has happened to the requests, and the commands issued, cycle by cycle. */
    ghost var history: seq<Event>
    ghost var flow: Flow
    ghost var served: seq<Command>
    ghost var trace: Trace
    ghost var popped: seq<Request>

    ghost predicate Shape()
      reads `rwq, `mrq, `channel, `prio, `writing, sched
    {
      && cfg.Valid() && channel.Fits(cfg) && |mrq| == cfg.nbk && prio < cfg.nbk
      && sched.Valid() && sched.nbk == cfg.nbk
      && rwq.minLen == (if writing then cfg.WL else cfg.CL) && DelayQueue.Tight(rwq) && |rwq.slots| <= cfg.CL + 1
    }

    /** The queues and the byte counts are those that the history leads to. */
    ghost predicate Faithful()
      reads `rwq, `mrqq, `returnq, `mrq, `flow, `popped, sched, flow.bytes.Keys
    {
      Elsewhere() && DelayQueue.Items(rwq.slots) == flow.inFlight
    }

    ghost predicate Elsewhere()
      reads `mrqq, `returnq, `mrq, `flow, `popped, sched, flow.bytes.Keys
    {
      mrqq == flow.mrqq && sched.queue == flow.queues && mrq == flow.serving && Counted()
    }

    ghost predicate Counted()
      reads `returnq, `flow, `popped, flow.bytes.Keys
    {
      && popped + returnq == Replies(flow.finished)
      && forall r :: r in flow.bytes ==> flow.bytes[r] == Bytes(r.txbytes, r.dqbytes)
    }

    ghost predicate Recorded()
      reads `flow, `history, `served
    {
      flow == Replay(cfg.nbk, cfg.atomSize, history) && served == flow.transfers
    }

    /** The channel is the one that the commands so far lead to, each of them issued when it was ready. */
    ghost predicate Timed()
      reads `channel, `trace
    {
      ChannelAfter(cfg, trace) == Some(channel)
    }

    ghost predicate Consistent()
      reads `rwq, `mrqq, `returnq, `mrq, `channel, `prio, `writing, `history, `flow, `served, `popped, sched
      reads flow.bytes.Keys
    {
      Recorded() && Shape() && Draining(frfcfs, sched.lastRow, mrq, channel.banks, cfg.nbk) && Faithful()
    }

    /** The reads and writes issued are those that the requests in service called for. */
    ghost predicate Served()
      reads `served, `trace
    {
      Columns(trace) == served
    }

    ghost predicate Valid()
      reads this, sched, flow.bytes.Keys
    {
      Consistent() && Timed() && Served()
    }

    constructor (cfg: Config, frfcfs: bool)
      requires cfg.Valid()
      ensures Valid() && this.cfg == cfg && this.frfcfs == frfcfs && trace == [] && history == []
      ensures fresh(sched) && ArrivalsFit()
    {
      this.cfg, this.frfcfs := cfg, frfcfs;
      sched := new Scheduler(cfg.nbk);
      rwq := DelayQueue.Queue(DelayQueue.Padded([], cfg.CL), cfg.CL);
      mrqq, returnq := [], [];
      channel := Initial(cfg);
      mrq := seq(cfg.nbk, _ => None);
      prio, writing := 0, false;
      trace, history, flow, served, popped := [], [], Start(cfg.nbk), [], [];
      new;
      DelayQueue.PaddingAddsNoItem<Request>([], cfg.CL);
      NoneIsDraining(frfcfs, sched.lastRow, mrq, channel.banks, cfg.nbk);
      assert Recorded() && Timed() && Shape();
    }

    /** Records what happens, other than a burst sent. */
    ghost method Record(e: Event)
      requires Recorded() && Allowed(flow, e) && !e.Send?
      modifies this`history, this`flow
      ensures Recorded() && flow == Next(old(flow), e, cfg.atomSize) && history == old(history) + [e]
    {
      ReplayNext(cfg.nbk, cfg.atomSize, history, e);
      flow := Next(flow, e, cfg.atomSize);
      history := history + [e];
    }

    ghost method RecordSend(b: nat)
      requires Recorded() && Allowed(flow, Send(b))
      modifies this`history, this`flow, this`served
      ensures Recorded() && flow == Next(old(flow), Send(b), cfg.atomSize) && history == old(history) + [Send(b)]
    {
      ReplayNext(cfg.nbk, cfg.atomSize, history, Send(b));
      served := served + [TransferOf(b, flow.serving[b].value)];
      flow := Next(flow, Send(b), cfg.atomSize);
      history := history + [Send(b)];
    }

    /** A request arrives. */
    method Push(bank: nat, row: nat, nbytes: nat, isWrite: bool, isWriteback: bool) returns (r: Request)
      requires Valid() && bank < cfg.nbk && |mrqq| < 2
      modifies this`mrqq, this`history, this`flow
      ensures Valid() && fresh(r) && history == old(history) + [Accept(r)] && mrqq == old(mrqq) + [r]
      ensures r.bank == bank && r.row == row && r.nbytes == nbytes && r.isWrite == isWrite
      ensures r.isWriteback == isWriteback
    {
      r := new Request(bank, row, nbytes, isWrite, isWriteback);
      Record(Accept(r));
      mrqq := mrqq + [r];
    }

    /** The oldest reply is fetched. */
    method ReturnQueuePop() returns (r: Option<Request>)
      requires Valid()
      modifies this`returnq, this`popped
      ensures Valid()
      ensures r == if old(returnq) == [] then None else Some(old(returnq)[0])
      ensures popped == old(popped) + if r.Some? then [r.value] else []
    {
      if returnq == [] {
        return None;
      }
      r := Some(returnq[0]);
      assert popped + returnq == (popped + [returnq[0]]) + returnq[1..];
      popped := popped + [returnq[0]];
      returnq := returnq[1..];
    }

    predicate ReturnQueueFull()
      reads `returnq
    {
      |returnq| >= if cfg.returnQueueSize == 0 then 1024 else cfg.returnQueueSize
    }

    /** A burst of a request has been transferred. */
    method Transferred(r: Request)
      requires Recorded() && Shape() && Draining(frfcfs, sched.lastRow, mrq, channel.banks, cfg.nbk) && Elsewhere()
      requires r in flow.bytes && flow.inFlight == [r] + DelayQueue.Items(rwq.slots)
      modifies this`returnq, this`history, this`flow, r`dqbytes
      ensures Consistent() && history == old(history) + [Move] && flow.bytes.Keys == old(flow.bytes.Keys)
    {
      Record(Move);
      r.dqbytes := r.dqbytes + cfg.atomSize;
      if r.dqbytes >= r.nbytes && !r.isWriteback {
        returnq := returnq + [r];
      }
    }

    /** The data queue moves on by one slot. */
    method PopSlot() returns (cmd: DelayQueue.Slot<Request>)
      requires Consistent()
      modifies this`rwq
      ensures Recorded() && Shape() && Draining(frfcfs, sched.lastRow, mrq, channel.banks, cfg.nbk) && Elsewhere()
      ensures cmd == DelayQueue.Top(old(rwq).slots) && rwq == DelayQueue.Applied(old(rwq), DelayQueue.Pop)
      ensures flow.inFlight == (if cmd.Item? then [cmd.value] else []) + DelayQueue.Items(rwq.slots)
      ensures cmd.Item? ==> cmd.value in flow.bytes
    {
      FirstsAreKnown(cfg.nbk, cfg.atomSize, history);
      DelayQueue.PopKeepsOrder(rwq.slots, rwq.minLen);
      DelayQueue.StaysTight(rwq, DelayQueue.Pop);
      cmd := DelayQueue.Top(rwq.slots);
      rwq := DelayQueue.Applied(rwq, DelayQueue.Pop);
    }

    /** One burst leaves the data bus, unless the return queue is full. */
    method MoveBurst()
      requires Consistent()
      modifies this`returnq, this`history, this`flow, this`rwq, flow.bytes.Keys
      ensures Consistent() && flow.bytes.Keys == old(flow.bytes.Keys)
      ensures history == old(AfterMove())
      ensures rwq == old(QueueAfterMove())
    {
      if !ReturnQueueFull() {
        var cmd := PopSlot();
        if cmd.Item? {
          Transferred(cmd.value);
        }
      }
    }

    /** The history when a burst has left the data bus, if there is one to leave and room for it. */
    ghost function AfterMove(): seq<Event>
      reads `history, `returnq, `rwq
    {
      history + if !ReturnQueueFull() && DelayQueue.Top(rwq.slots).Item? then [Move] else []
    }

    ghost function QueueAfterMove(): DelayQueue.Queue<Request>
      reads `returnq, `rwq
    {
      if ReturnQueueFull() then rwq else DelayQueue.Applied(rwq, DelayQueue.Pop)
    }

    /** First come, first served: the oldest arrival goes to its bank if that is free. */
    method ScheduleFifo()
      requires Consistent() && !frfcfs
      modifies this`mrqq, this`mrq, this`history, this`flow
      ensures Consistent() && flow.bytes.Keys == old(flow.bytes.Keys)
      ensures history == old(history) + Forwarding(old(mrqq), old(mrq)) && prio == old(prio)
      ensures old(mrqq) != [] ==> old(mrqq)[0].bank < cfg.nbk
      ensures history == old(history)
        + if old(mrqq) != [] && old(mrq)[old(mrqq)[0].bank].None? then [Forward] else []
      ensures |mrqq| <= |old(mrqq)|
    {
      if mrqq != [] {
        FirstsAreKnown(cfg.nbk, cfg.atomSize, history);
        var head := mrqq[0];
        if mrq[head.bank].None? {
          Record(Forward);
          ServedIsDraining(frfcfs, sched.lastRow, mrq, channel.banks, cfg.nbk, head.bank, Some(head));
          mrq := mrq[head.bank := Some(head)];
          mrqq := mrqq[1..];
        }
      }
    }

    method AdmitOne()
      requires Consistent() && mrqq != []
      modifies this`mrqq, this`history, this`flow, sched
      ensures Consistent() && sched.lastRow == old(sched.lastRow) && flow.bytes.Keys == old(flow.bytes.Keys)
      ensures mrqq == old(mrqq)[1..] && history == old(history) + [Admit]
      ensures sched.numPending == old(sched.numPending) + 1
    {
      FirstsAreKnown(cfg.nbk, cfg.atomSize, history);
      var r := mrqq[0];
      Record(Admit);
      mrqq := mrqq[1..];
      sched.AddReq(r);
    }

    /** Arrivals enter the scheduler until it is full. */
    method AdmitArrivals()
      requires Consistent()
      modifies this`mrqq, this`history, this`flow, sched
      ensures Consistent() && sched.lastRow == old(sched.lastRow) && flow.bytes.Keys == old(flow.bytes.Keys)
      ensures var n := Admissions(|old(mrqq)|, old(sched.numPending), cfg.schedQueueSize);
        n <= |old(mrqq)| && mrqq == old(mrqq)[n..] && history == old(history) + Admitting(n)
    {
      ghost var n := 0;
      while mrqq != [] && (cfg.schedQueueSize == 0 || sched.numPending < cfg.schedQueueSize)
        invariant Consistent() && sched.lastRow == old(sched.lastRow) && flow.bytes.Keys == old(flow.bytes.Keys)
        invariant n <= |old(mrqq)| && mrqq == old(mrqq)[n..] && history == old(history) + Admitting(n)
        invariant sched.numPending == old(sched.numPending) + n
        invariant n == 0 || cfg.schedQueueSize == 0 || sched.numPending <= cfg.schedQueueSize
        decreases |mrqq|
      {
        AdmitOne();
        n := n + 1;
        assert Admitting(n) == Admitting(n - 1) + [Admit];
      }
    }

    /** A bank has been given a request out of its queue. */
    method Selected(b: nat, ghost i: nat, r: Request)
      requires Recorded() && Shape() && b < cfg.nbk && mrq[b].None?
      requires Draining(frfcfs, sched.lastRow, mrq[b := Some(r)], channel.banks, cfg.nbk)
      requires mrqq == flow.mrqq && mrq == flow.serving && Counted() && DelayQueue.Items(rwq.slots) == flow.inFlight
      requires |flow.queues| == cfg.nbk && i < |flow.queues[b]| && r == flow.queues[b][i]
      requires sched.queue == flow.queues[b := Removed(flow.queues[b], i)]
      modifies this`mrq, this`prio, this`history, this`flow
      ensures Consistent() && flow.bytes.Keys == old(flow.bytes.Keys)
      ensures history == old(history) + [Select(b, i)] && prio == (old(prio) + 1) % cfg.nbk
    {
      Record(Select(b, i));
      prio := (prio + 1) % cfg.nbk;
      mrq := mrq[b := Some(r)];
    }

    /** The request that a free bank takes is out of the scheduler. */
    method TakeFor(b: nat) returns (req: Option<Request>, ghost i: nat)
      requires Consistent() && frfcfs && b < cfg.nbk && mrq[b].None?
      modifies sched
      ensures Recorded() && Shape() && mrqq == flow.mrqq && mrq == flow.serving && Counted()
      ensures DelayQueue.Items(rwq.slots) == flow.inFlight && |flow.queues| == cfg.nbk
      ensures (req.None? <==> flow.queues[b] == []) && (req.None? ==> Consistent())
      ensures req.Some? ==>
        && FirstReady(flow.queues[b], channel.banks[b].row, i) && req.value == flow.queues[b][i]
        && sched.queue == flow.queues[b := Removed(flow.queues[b], i)]
        && Draining(frfcfs, sched.lastRow, mrq[b := req], channel.banks, cfg.nbk)
    {
      BankIsDraining(frfcfs, sched.lastRow, mrq, channel.banks, cfg.nbk, b);
      ghost var lastRow := sched.lastRow;
      req, i := sched.Schedule(b, channel.banks[b].row);
      if req.Some? {
        SelectedIsDraining(frfcfs, lastRow, mrq, channel.banks, cfg.nbk, b, req.value, sched.lastRow[b]);
      }
    }

    /** A free bank takes the oldest request to its open row if it has one queued, and else the oldest. */
    method SelectFor(b: nat) returns (found: bool, ghost i: nat)
      requires Consistent() && frfcfs && b < cfg.nbk && mrq[b].None?
      modifies this`mrq, this`prio, this`history, this`flow, sched
      ensures Consistent() && (found <==> old(flow).queues[b] != []) && flow.bytes.Keys == old(flow.bytes.Keys)
      ensures found ==>
        FirstReady(old(flow).queues[b], channel.banks[b].row, i) && history == old(history) + [Select(b, i)]
      ensures prio == if found then (old(prio) + 1) % cfg.nbk else old(prio)
      ensures !found ==> mrq == old(mrq) && flow == old(flow) && history == old(history)
    {
      var req;
      req, i := TakeFor(b);
      found := req.Some?;
      if found {
        Selected(b, i, req.value);
      }
    }

    method TryBank(b: nat) returns (found: bool)
      requires Consistent() && frfcfs && b < cfg.nbk
      modifies this`mrq, this`prio, this`history, this`flow, sched
      ensures Consistent() && flow.bytes.Keys == old(flow.bytes.Keys)
      ensures !found ==> history == old(history) && flow == old(flow) && prio == old(prio) && PassedOver(flow, b)
      ensures found ==> Picks(old(flow), channel.banks, b, old(history), history) && prio == (old(prio) + 1) % cfg.nbk
    {
      found := false;
      if mrq[b].None? {
        ghost var i;
        found, i := SelectFor(b);
      }
    }

    lemma QueuesAreKnown()
      requires Shape() && Elsewhere()
      ensures |flow.serving| == |flow.queues| == cfg.nbk
    {
    }

    /** Tries the bank of a turn when all before it have been passed over. */
    method TryTurn(i: nat) returns (found: bool)
      requires Consistent() && frfcfs && i < cfg.nbk && AllPassedOver(flow, i, prio)
      modifies this`mrq, this`prio, this`history, this`flow, sched
      ensures Consistent() && flow.bytes.Keys == old(flow.bytes.Keys)
      ensures !found ==> history == old(history) && flow == old(flow) && prio == old(prio)
      ensures !found ==> AllPassedOver(flow, i + 1, prio)
      ensures found ==> Found(old(flow), channel.banks, Some(i), old(history), old(prio), history, prio)
    {
      QueuesAreKnown();
      found := TryBank(Turn(i, prio, cfg.nbk));
    }

    /** First ready, first come, first served: the first free bank in turn that has a request takes one. */
    method SelectFirst() returns (picked: Option<nat>)
      requires Consistent() && frfcfs
      modifies this`mrq, this`prio, this`history, this`flow, sched
      ensures Consistent() && flow.bytes.Keys == old(flow.bytes.Keys)
      ensures Found(old(flow), channel.banks, picked, old(history), old(prio), history, prio)
    {
      picked := None;
      var i := 0;
      QueuesAreKnown();
      while i < cfg.nbk
        invariant i <= cfg.nbk && Consistent() && flow == old(flow) && history == old(history) && prio == old(prio)
        invariant AllPassedOver(flow, i, prio)
      {
        var found := TryTurn(i);
        if found {
          return Some(i);
        }
        i := i + 1;
      }
    }

    function Latency(write: bool): nat {
      if write then cfg.WL else cfg.CL
    }

    /** The data queue turns to reading or to writing, and its minimum length to the latency of that. */
    method SwitchTo(write: bool)
      requires Consistent() && |rwq.slots| <= cfg.CL
      modifies this`writing, this`rwq
      ensures Consistent() && writing == write && |rwq.slots| <= cfg.CL
      ensures rwq == DelayQueue.Applied(old(rwq), DelayQueue.SetMinLength(Latency(write)))
    {
      if writing != write {
        writing := write;
        ResizedStaysShort(rwq.slots, rwq.minLen, Latency(write));
        DelayQueue.StaysTight(rwq, DelayQueue.SetMinLength(Latency(write)));
        rwq := DelayQueue.Applied(rwq, DelayQueue.SetMinLength(Latency(write)));
      }
    }

    /** A bank's next burst has entered the data queue. */
    method Sent(j: nat)
      requires Recorded() && Shape() && Draining(frfcfs, sched.lastRow, mrq, channel.banks, cfg.nbk) && Elsewhere()
      requires j < cfg.nbk && mrq[j].Some? && mrq[j].value in flow.bytes && channel.banks[j].row == mrq[j].value.row
      requires DelayQueue.Items(rwq.slots) == flow.inFlight + [mrq[j].value]
      modifies this`mrq, this`history, this`flow, this`served, mrq[j].value`txbytes
      ensures Consistent() && history == old(history) + [Send(j)] && flow.bytes.Keys == old(flow.bytes.Keys)
    {
      var r := mrq[j].value;
      RecordSend(j);
      r.txbytes := r.txbytes + cfg.atomSize;
      var left := mrq[j := if r.txbytes < r.nbytes then Some(r) else None];
      ServedIsDraining(frfcfs, sched.lastRow, mrq, channel.banks, cfg.nbk, j, left[j]);
      mrq := left;
    }

    method SendBurst(j: nat)
      requires Consistent() && j < cfg.nbk && mrq[j].Some? && channel.banks[j].row == mrq[j].value.row
      requires |rwq.slots| < cfg.CL + 1
      modifies this`mrq, this`rwq, this`history, this`flow, this`served, mrq[j].value`txbytes
      ensures Consistent() && history == old(history) + [Send(j)] && flow.bytes.Keys == old(flow.bytes.Keys)
      ensures rwq == DelayQueue.Applied(old(rwq), DelayQueue.Push(DelayQueue.Item(old(mrq)[j].value)))
    {
      var r := mrq[j].value;
      ServedIsKnown(cfg.nbk, cfg.atomSize, history, j);
      DelayQueue.PushKeepsOrder(rwq.slots, rwq.minLen, DelayQueue.Item(r));
      DelayQueue.StaysTight(rwq, DelayQueue.Push(DelayQueue.Item(r)));
      rwq := DelayQueue.Applied(rwq, DelayQueue.Push(DelayQueue.Item(r)));
      Sent(j);
    }

    lemma StillDraining(j: nat, bank: Bank)
      requires Shape() && j < cfg.nbk && Draining(frfcfs, sched.lastRow, mrq, channel.banks, cfg.nbk)
      requires bank.row == if mrq[j].Some? then bank.row else channel.banks[j].row
      ensures Draining(frfcfs, sched.lastRow, mrq, channel.banks[j := bank], cfg.nbk)
    {
      BankIsDraining(frfcfs, sched.lastRow, mrq, channel.banks, cfg.nbk, j);
      var banks := channel.banks[j := bank];
      BanksStayDraining(frfcfs, sched.lastRow, mrq, channel.banks, cfg.nbk, sched.lastRow, mrq, banks, j);
    }

    method StartReadTimers(j: nat, row: nat)
      requires Consistent() && j < cfg.nbk && cfg.Group(j) < cfg.nbkgrp
      modifies this`channel
      ensures Consistent() && channel == old(channel).Issued(cfg, Read(j, row))
    {
      var bank := channel.banks[j].(rtp := cfg.burst);
      StillDraining(j, bank);
      channel := channel.(
        ccd := cfg.tCCD, rtw := cfg.tRTW, banks := channel.banks[j := bank],
        groups := channel.groups[cfg.Group(j) := BankGroup(cfg.tCCDL, cfg.tRTPL)]);
    }

    method StartWriteTimers(j: nat, row: nat)
      requires Consistent() && j < cfg.nbk && cfg.Group(j) < cfg.nbkgrp
      modifies this`channel
      ensures Consistent() && channel == old(channel).Issued(cfg, Write(j, row))
    {
      var bank, grp := channel.banks[j].(wtp := cfg.tWTP), cfg.Group(j);
      StillDraining(j, bank);
      channel := channel.(
        ccd := cfg.tCCD, wtr := cfg.tWTR, banks := channel.banks[j := bank],
        groups := channel.groups[grp := channel.groups[grp].(ccdl := cfg.tCCDL)]);
    }

    method IssueRead(j: nat)
      requires Consistent() && j < cfg.nbk && mrq[j].Some? && |rwq.slots| < cfg.CL + 1
      requires channel.Ready(cfg, Read(j, mrq[j].value.row))
      modifies this`mrq, this`rwq, this`writing, this`history, this`flow, this`served, this`channel
      modifies mrq[j].value`txbytes
      ensures Consistent() && history == old(history) + [Send(j)] && flow.bytes.Keys == old(flow.bytes.Keys)
      ensures channel == old(channel).Issued(cfg, Read(j, old(mrq)[j].value.row))
      ensures rwq == WithBurst(old(rwq), cfg.CL, old(mrq)[j].value)
    {
      var row := mrq[j].value.row;
      SwitchTo(false);
      SendBurst(j);
      StartReadTimers(j, row);
    }

    method IssueWrite(j: nat)
      requires Consistent() && j < cfg.nbk && mrq[j].Some? && |rwq.slots| < cfg.CL + 1
      requires channel.Ready(cfg, Write(j, mrq[j].value.row))
      modifies this`mrq, this`rwq, this`writing, this`history, this`flow, this`served, this`channel
      modifies mrq[j].value`txbytes
      ensures Consistent() && history == old(history) + [Send(j)] && flow.bytes.Keys == old(flow.bytes.Keys)
      ensures channel == old(channel).Issued(cfg, Write(j, old(mrq)[j].value.row))
      ensures rwq == WithBurst(old(rwq), cfg.WL, old(mrq)[j].value)
    {
      var row := mrq[j].value.row;
      SwitchTo(true);
      SendBurst(j);
      StartWriteTimers(j, row);
    }

    method IssueColumn(j: nat, cmd: Command)
      requires Consistent() && j < cfg.nbk && mrq[j].Some? && |rwq.slots| < cfg.CL + 1 && channel.Ready(cfg, cmd)
      requires cmd == Read(j, mrq[j].value.row) || cmd == Write(j, mrq[j].value.row)
      modifies this`mrq, this`rwq, this`writing, this`history, this`flow, this`served, this`channel
      modifies mrq[j].value`txbytes
      ensures Consistent() && history == old(history) + Sending(Some(cmd)) && flow.bytes.Keys == old(flow.bytes.Keys)
      ensures channel == old(channel).Issued(cfg, cmd)
      ensures rwq == QueueAfter(cfg, old(rwq), old(mrq), Some(cmd))
    {
      if cmd.Read? {
        IssueRead(j);
      } else {
        IssueWrite(j);
      }
    }

    method OpenRowOf(j: nat)
      requires Consistent() && j < cfg.nbk && mrq[j].Some? && channel.Ready(cfg, Activate(j, mrq[j].value.row))
      modifies this`channel, this`prio
      ensures Consistent() && prio == (j + 1) % cfg.nbk
      ensures channel == old(channel).Issued(cfg, Activate(j, mrq[j].value.row))
    {
      var bank := channel.banks[j].(active := true, row := mrq[j].value.row, rcd := cfg.tRCD, rcdwr := cfg.tRCDWR,
                                    ras := cfg.tRAS, rc := cfg.tRC);
      StillDraining(j, bank);
      channel := channel.(rrd := cfg.tRRD, banks := channel.banks[j := bank]);
      prio := (j + 1) % cfg.nbk;
    }

    method CloseRowOf(j: nat)
      requires Consistent() && j < cfg.nbk && channel.Ready(cfg, Precharge(j))
      modifies this`channel, this`prio
      ensures Consistent() && prio == (j + 1) % cfg.nbk
      ensures channel == old(channel).Issued(cfg, Precharge(j))
    {
      var bank := channel.banks[j].(active := false, rp := cfg.tRP);
      StillDraining(j, bank);
      channel := channel.(banks := channel.banks[j := bank]);
      prio := (j + 1) % cfg.nbk;
    }

    method IssueRow(j: nat, cmd: Command)
      requires Consistent() && j < cfg.nbk && mrq[j].Some? && channel.Ready(cfg, cmd)
      requires cmd == Activate(j, mrq[j].value.row) || cmd == Precharge(j)
      modifies this`channel, this`prio
      ensures Consistent() && channel == old(channel).Issued(cfg, cmd)
      ensures prio == TurnAfter(Some(cmd), old(prio), cfg.nbk)
    {
      if cmd.Activate? {
        OpenRowOf(j);
      } else {
        CloseRowOf(j);
      }
    }

    /** The command a bank can send: the row state allows it and all counters it waits for have run out. */
    method Decide(j: nat) returns (cmd: Option<Command>)
      requires Shape() && j < cfg.nbk
      ensures cmd == CommandFor(cfg, channel, mrq[j], |rwq.slots| < cfg.CL + 1, j)
      ensures mrq[j].None? ==> cmd.None?
      ensures mrq[j].Some? ==>
        var r, bank := mrq[j].value, channel.banks[j];
        var wanted := if !bank.active then Activate(j, r.row) else if bank.row != r.row then Precharge(j)
                      else if r.isWrite then Write(j, r.row) else Read(j, r.row);
        var room := bank.active && bank.row == r.row ==> |rwq.slots| < cfg.CL + 1;
        cmd == if channel.Ready(cfg, wanted) && room then Some(wanted) else None
      ensures cmd.Some? ==> channel.Ready(cfg, cmd.value) && mrq[j].Some?
      ensures cmd.Some? ==>
        || cmd.value == Precharge(j) || cmd.value == Activate(j, mrq[j].value.row)
        || (|rwq.slots| < cfg.CL + 1 && cmd.value == Read(j, mrq[j].value.row))
        || (|rwq.slots| < cfg.CL + 1 && cmd.value == Write(j, mrq[j].value.row))
    {
      GroupExists(cfg, j);
      if mrq[j].None? {
        return None;
      }
      var r, b, g, full := mrq[j].value, channel.banks[j], channel.groups[cfg.Group(j)], |rwq.slots| >= cfg.CL + 1;
      if channel.ccd == 0 && b.rcd == 0 && g.ccdl == 0 && b.row == r.row && !r.isWrite && channel.wtr == 0
         && b.active && !full {
        cmd := Some(Read(j, r.row));
      } else if channel.ccd == 0 && b.rcdwr == 0 && g.ccdl == 0 && b.row == r.row && r.isWrite && channel.rtw == 0
                && b.active && !full {
        cmd := Some(Write(j, r.row));
      } else if channel.rrd == 0 && !b.active && b.rp == 0 && b.rc == 0 {
        cmd := Some(Activate(j, r.row));
      } else if b.row != r.row && b.active && b.ras == 0 && b.wtp == 0 && b.rtp == 0 && g.rtpl == 0 {
        cmd := Some(Precharge(j));
      } else {
        cmd := None;
      }
    }

    /** Sends the command of a bank, if it has one. */
    method IssueTo(j: nat) returns (cmd: Option<Command>)
      requires Consistent() && j < cfg.nbk
      modifies this`mrq, this`rwq, this`writing, this`history, this`flow, this`served, this`prio, flow.bytes.Keys
      modifies this`channel
      ensures Consistent() && flow.bytes.Keys == old(flow.bytes.Keys)
      ensures cmd == CommandFor(cfg, old(channel), old(mrq)[j], |old(rwq).slots| < cfg.CL + 1, j)
      ensures cmd.None? ==> channel == old(channel) && mrq == old(mrq) && flow == old(flow)
      ensures rwq == QueueAfter(cfg, old(rwq), old(mrq), cmd) && prio == TurnAfter(cmd, old(prio), cfg.nbk)
      ensures cmd.Some? ==> old(channel).Ready(cfg, cmd.value) && channel == old(channel).Issued(cfg, cmd.value)
      ensures history == old(history) + Sending(cmd)
    {
      ServedIsKnown(cfg.nbk, cfg.atomSize, history, j);
      cmd := Decide(j);
      match cmd {
        case Some(Activate(_, _)) => IssueRow(j, cmd.value);
        case Some(Precharge(_)) => IssueRow(j, cmd.value);
        case Some(_) => IssueColumn(j, cmd.value);
        case None =>
      }
    }

    ghost function OffersNow(): seq<Option<Command>>
      requires Shape()
      reads `rwq, `mrq, `channel, `prio, `writing, sched
    {
      Offers(cfg, channel, mrq, |rwq.slots| < cfg.CL + 1, prio)
    }

    method TakeTurn(i: nat) returns (cmd: Option<Command>)
      requires Consistent() && i < cfg.nbk && First(OffersNow()[..i]).None?
      modifies this`mrq, this`rwq, this`writing, this`history, this`flow, this`served, this`prio, flow.bytes.Keys
      modifies this`channel
      ensures Consistent() && flow.bytes.Keys == old(flow.bytes.Keys) && history == old(history) + Sending(cmd)
      ensures cmd.Some? ==> cmd == First(old(OffersNow()))
      ensures cmd.None? ==> First(OffersNow()[..i + 1]).None?
      ensures rwq == QueueAfter(cfg, old(rwq), old(mrq), cmd) && prio == TurnAfter(cmd, old(prio), cfg.nbk)
      ensures cmd.None? ==> mrq == old(mrq) && flow == old(flow)
      ensures cmd.Some? ==> old(channel).Ready(cfg, cmd.value)
      ensures channel == if cmd.Some? then old(channel).Issued(cfg, cmd.value) else old(channel)
    {
      FirstOf(OffersNow(), i);
      cmd := IssueTo(Turn(i, prio, cfg.nbk));
    }

    /** The first bank in turn that has a command ready sends it, and no other bank does. */
    method IssueCommand() returns (cmd: Option<Command>)
      requires Consistent()
      modifies this`mrq, this`rwq, this`writing, this`history, this`flow, this`served, this`prio, flow.bytes.Keys
      modifies this`channel
      ensures Consistent() && history == old(history) + Sending(cmd)
      ensures cmd == First(old(OffersNow()))
      ensures rwq == QueueAfter(cfg, old(rwq), old(mrq), cmd) && prio == TurnAfter(cmd, old(prio), cfg.nbk)
      ensures cmd.Some? ==> old(channel).Ready(cfg, cmd.value)
      ensures channel == if cmd.Some? then old(channel).Issued(cfg, cmd.value) else old(channel)
    {
      cmd := None;
      var i := 0;
      while i < cfg.nbk
        invariant i <= cfg.nbk && Consistent() && history == old(history) && flow == old(flow)
        invariant cmd.None? && First(OffersNow()[..i]).None? && channel == old(channel)
        invariant rwq == old(rwq) && mrq == old(mrq) && prio == old(prio)
      {
        cmd := TakeTurn(i);
        i := i + 1;
        if cmd.Some? {
          return;  // the other banks only count their idle cycles
        }
      }
      assert OffersNow()[..i] == OffersNow();
    }

    static method CountDownBanks(banks: seq<Bank>) returns (r: seq<Bank>)
      ensures r == seq(|banks|, j requires 0 <= j < |banks| => ElapsedBank(banks[j]))
    {
      r := banks;
      var j := 0;
      while j < |banks|
        invariant j <= |banks| == |r|
        invariant forall k :: 0 <= k < |banks| ==> r[k] == if k < j then ElapsedBank(banks[k]) else banks[k]
      {
        r := r[j := ElapsedBank(r[j])];
        j := j + 1;
      }
    }

    static method CountDownGroups(groups: seq<BankGroup>) returns (r: seq<BankGroup>)
      ensures r == seq(|groups|, j requires 0 <= j < |groups| => ElapsedGroup(groups[j]))
    {
      r := groups;
      var j := 0;
      while j < |groups|
        invariant j <= |groups| == |r|
        invariant forall k :: 0 <= k < |groups| ==> r[k] == if k < j then ElapsedGroup(groups[k]) else groups[k]
      {
        r := r[j := ElapsedGroup(r[j])];
        j := j + 1;
      }
    }

    /** Every running counter goes down by one. */
    method CountDown()
      requires Consistent()
      modifies this`channel
      ensures Consistent() && channel == old(channel).Elapsed()
    {
      var banks := CountDownBanks(channel.banks);
      var groups := CountDownGroups(channel.groups);
      BanksStayDraining(frfcfs, sched.lastRow, mrq, channel.banks, cfg.nbk, sched.lastRow, mrq, banks, cfg.nbk);
      channel := Channel(banks, groups, DecToZero(channel.rrd), DecToZero(channel.ccd), DecToZero(channel.rtw),
                         DecToZero(channel.wtr));
    }

    /** Arrivals enter the scheduler, and the first free bank in turn that then has a request takes one. */
    method ScheduleFrFcfs() returns (picked: Option<nat>)
      requires Consistent() && frfcfs
      modifies this`mrqq, this`mrq, this`history, this`flow, this`prio, sched
      ensures Consistent() && flow.bytes.Keys == old(flow.bytes.Keys)
      ensures var n := Admissions(|old(mrqq)|, old(sched.numPending), cfg.schedQueueSize);
        n <= |old(mrqq)| && mrqq == old(mrqq)[n..] && FedAfter(old(history) + Admitting(n), old(prio), picked)
    {
      AdmitArrivals();
      ghost var f, before, turn := flow, history, prio;
      picked := SelectFirst();
      FoundFeeds(f, channel.banks, picked, before, turn, history, prio);
    }

    /** The scheduler has fed a bank at that turn, after the events before. */
    ghost predicate FedAfter(before: seq<Event>, turn: nat, picked: Option<nat>)
      requires turn < cfg.nbk && |channel.banks| == cfg.nbk
      reads `channel, `history, `prio
    {
      Feeds(Replay(cfg.nbk, cfg.atomSize, before), channel.banks, picked, before, turn, history, prio)
    }

    /** The scheduler feeds a bank. */
    method FeedBank() returns (ghost picked: Option<nat>)
      requires Consistent() && Timed()
      modifies this`mrqq, this`mrq, this`history, this`flow, this`prio, sched
      ensures Consistent() && Timed() && flow.bytes.Keys == old(flow.bytes.Keys)
      ensures if frfcfs then
          var n := Admissions(|old(mrqq)|, old(sched.numPending), cfg.schedQueueSize);
          n <= |old(mrqq)| && mrqq == old(mrqq)[n..] && FedAfter(old(history) + Admitting(n), old(prio), picked)
        else
          |mrqq| <= |old(mrqq)| && history == old(history) + Forwarding(old(mrqq), old(mrq)) && prio == old(prio)
    {
      if frfcfs {
        picked := ScheduleFrFcfs();
      } else {
        picked := None;
        ScheduleFifo();
      }
    }

    ghost method Log(cmd: Option<Command>, before: Channel)
      requires ChannelAfter(cfg, trace) == Some(before) && (cmd.Some? ==> before.Ready(cfg, cmd.value))
      requires channel == After(cfg, before, cmd)
      modifies this`trace
      ensures Timed() && trace == old(trace) + [cmd]
    {
      NextChannel(cfg, trace, cmd);
      trace := trace + [cmd];
    }

    method IssueAndElapse() returns (cmd: Option<Command>)
      requires Consistent()
      modifies this`mrq, this`rwq, this`writing, this`history, this`flow, this`served, this`prio, this`channel
      modifies flow.bytes.Keys
      ensures Consistent() && history == old(history) + Sending(cmd)
      ensures cmd == First(old(OffersNow())) && (cmd.Some? ==> old(channel).Ready(cfg, cmd.value))
      ensures channel == After(cfg, old(channel), cmd)
      ensures rwq == QueueAfter(cfg, old(rwq), old(mrq), cmd) && prio == TurnAfter(cmd, old(prio), cfg.nbk)
    {
      cmd := IssueCommand();
      CountDown();
    }

    /** At most one command is issued, that of the first bank in turn that has one ready, and time goes on. */
    method CommandCycle() returns (cmd: Option<Command>)
      requires Valid()
      modifies this`mrq, this`rwq, this`writing, this`history, this`flow, this`served
      modifies this`prio, this`channel, this`trace, flow.bytes.Keys
      ensures Valid() && history == old(history) + Sending(cmd) && trace == old(trace) + [cmd]
      ensures IssuesFirst(cfg, old(trace), old(mrq), |old(rwq).slots| < cfg.CL + 1, old(prio), cmd)
      ensures rwq == QueueAfter(cfg, old(rwq), old(mrq), cmd) && prio == TurnAfter(cmd, old(prio), cfg.nbk)
    {
      ghost var before := channel;
      ghost var serving, room, turn := mrq, |rwq.slots| < cfg.CL + 1, prio;
      FirstOfferIsIssued(cfg, trace, channel, mrq, room, prio);
      cmd := IssueAndElapse();
      Log(cmd, before);
      OneTransfer(cfg, old(trace), old(history), room, turn, cmd);
      ColumnsAppend(old(trace), cmd);
    }

    /** A burst leaves the bus, and the scheduler feeds a bank. */
    method MoveAndFeed() returns (ghost picked: Option<nat>)
      requires Valid()
      modifies this`mrqq, this`returnq, this`mrq, this`rwq, this`history, this`flow, this`prio, sched
      modifies flow.bytes.Keys
      ensures Valid() && flow.bytes.Keys == old(flow.bytes.Keys)
      ensures rwq == old(QueueAfterMove())
      ensures if frfcfs then
          var n := Admissions(|old(mrqq)|, old(sched.numPending), cfg.schedQueueSize);
          var before := old(AfterMove()) + Admitting(n);
          && n <= |old(mrqq)| && mrqq == old(mrqq)[n..]
          && Feeds(Replay(cfg.nbk, cfg.atomSize, before), channel.banks, picked, before, old(prio), history, prio)
        else
          |mrqq| <= |old(mrqq)| && history == old(AfterMove()) + Forwarding(old(mrqq), old(mrq)) && prio == old(prio)
    {
      MoveBurst();
      picked := FeedBank();
    }

    /** One command cycle: a burst leaves the bus, the scheduler feeds a bank, and at most one command is issued,
        which is that of the first bank in turn that has one ready for the request it then serves. */
    method Cycle() returns (cmd: Option<Command>, ghost picked: Option<nat>, ghost fed: seq<Event>, ghost turn: nat)
      requires Valid()
      modifies this`mrqq, this`returnq, this`mrq, this`rwq, this`writing, this`history, this`flow, this`served
      modifies this`prio, this`channel, this`trace, sched, flow.bytes.Keys
      ensures Valid() && history == fed + Sending(cmd) && trace == old(trace) + [cmd]
      ensures var room := |old(returnq)| < if cfg.returnQueueSize == 0 then 1024 else cfg.returnQueueSize;
        && old(AfterMove()) == old(history)
             + (if room && old(rwq).slots != [] && old(rwq).slots[0].Item? then [Move] else [])
        && old(QueueAfterMove()) == if room then DelayQueue.Applied(old(rwq), DelayQueue.Pop) else old(rwq)
      ensures if frfcfs then
          var n := Admissions(|old(mrqq)|, old(sched.numPending), cfg.schedQueueSize);
          var before := old(AfterMove()) + Admitting(n);
          && n <= |old(mrqq)| && mrqq == old(mrqq)[n..]
          && Feeds(Replay(cfg.nbk, cfg.atomSize, before), old(channel).banks, picked, before, old(prio), fed, turn)
        else
          |mrqq| <= |old(mrqq)| && fed == old(AfterMove()) + Forwarding(old(mrqq), old(mrq)) && turn == old(prio)
      ensures var mrq', q := Replay(cfg.nbk, cfg.atomSize, fed).serving, old(QueueAfterMove());
        && turn < |mrq'| == cfg.nbk && IssuesFirst(cfg, old(trace), mrq', |q.slots| < cfg.CL + 1, turn, cmd)
        && Follows(cfg, q, mrq', turn, cmd, rwq, prio)
    {
      picked := MoveAndFeed();
      fed, turn := history, prio;
      ghost var q, serving := rwq, mrq;
      cmd := CommandCycle();
      CommandFollows(cfg, old(trace), serving, turn, cmd, q);
    }

    /** No request can be pushed. */
    predicate Full()
      reads `mrqq, sched
    {
      if frfcfs then 0 < cfg.schedQueueSize <= sched.numPending else |mrqq| >= 2
    }

    /** The arrivals are within the capacity of their queue, and if they fill it the next cycle will admit one. */
    ghost predicate ArrivalsFit()
      reads `mrqq, sched
    {
      |mrqq| <= 2 && (frfcfs && |mrqq| == 2 ==> !Full())
    }

    /** After a cycle there is room for a request unless the controller is full. */
    method CycleWithArrivals()
      requires Valid() && ArrivalsFit()
      modifies this`mrqq, this`returnq, this`mrq, this`rwq, this`writing, this`history, this`flow, this`served
      modifies this`prio, this`channel, this`trace, sched, flow.bytes.Keys
      ensures Valid() && |mrqq| <= (if frfcfs then 1 else 2) && (Full() || |mrqq| < 2)
    {
      var cmd, picked, fed, turn := Cycle();
    }

    method PushUnlessFull(arrival: Arrival) returns (r: Option<Request>)
      requires Valid() && |mrqq| <= (if frfcfs then 1 else 2) && (Full() || |mrqq| < 2) && arrival.bank < cfg.nbk
      modifies this`mrqq, this`history, this`flow
      ensures Valid() && ArrivalsFit() && (r.None? <==> old(Full()))
      ensures r.Some? ==> fresh(r.value) && MadeOf(r.value, arrival)
      ensures mrqq == old(mrqq) + if r.Some? then [r.value] else []
      ensures history == old(history) + if r.Some? then [Accept(r.value)] else []
    {
      if Full() {
        return None;
      }
      var a := arrival;
      var req := Push(a.bank, a.row, a.nbytes, a.isWrite, a.isWriteback);
      r := Some(req);
    }

    /** A cycle of the memory partition. It fetches a reply if it has room for one, and pushes at most one request,
        after the controller's cycle and unless the controller is then full: the request always fits. */
    method DramCycle(fetch: bool, arrival: Option<Arrival>) returns (reply: Option<Request>, pushed: Option<Request>)
      requires Valid() && ArrivalsFit() && (arrival.Some? ==> arrival.value.bank < cfg.nbk)
      modifies this`mrqq, this`returnq, this`mrq, this`rwq, this`writing, this`history, this`flow, this`served
      modifies this`prio, this`channel, this`trace, this`popped, sched, flow.bytes.Keys
      ensures Valid() && ArrivalsFit()
      ensures reply == if fetch && old(returnq) != [] then Some(old(returnq)[0]) else None
      ensures popped == old(popped) + if reply.Some? then [reply.value] else []
      ensures pushed.Some? ==> arrival.Some? && fresh(pushed.value) && MadeOf(pushed.value, arrival.value)
      ensures pushed.Some? ==> history != [] && history[|history| - 1] == Accept(pushed.value)
      ensures pushed.None? && arrival.Some? ==> Full()
    {
      reply, pushed := None, None;
      if fetch {
        reply := ReturnQueuePop();
      }
      CycleWithArrivals();
      if arrival.Some? {
        pushed := PushUnlessFull(arrival.value);
      }
    }
  }

  lemma {:induction false} RepliesAreFinished(finished: seq<Request>, r: Request)
    ensures multiset(Replies(finished))[r] == if r.isWriteback then 0 else multiset(finished)[r]
  {
    if finished != [] {
      var init := finished[..|finished| - 1];
      RepliesAreFinished(init, r);
      assert finished == init + [finished[|finished| - 1]];
    }
  }

  /** In whatever state a controller can get into: its commands so far were all far enough apart and went to
      open rows, and a request has been answered at most once, and only when all its bytes had been moved. */
  lemma ControllersAreSafe(c: Controller, r: Request)
    requires c.Valid()
    ensures WellSpaced(c.cfg, c.trace) && RowsLegal(c.trace)
    ensures Columns(c.trace) == c.flow.transfers
    ensures multiset(c.popped + c.returnq)[r] <= 1
    ensures r in c.popped + c.returnq ==>
      !r.isWriteback && r in c.flow.bytes && r.txbytes == r.dqbytes && Enough(r.nbytes, r.dqbytes, c.cfg.atomSize)
    ensures r in c.flow.finished && !r.isWriteback ==> r in c.popped + c.returnq
  {
    RunsAreTimingSafe(c.cfg, c.trace);
    RepliesAreFinished(c.flow.finished, r);
    if r in c.flow.finished {
      FinishedOnceAndForAll(c.cfg.nbk, c.cfg.atomSize, c.history, r);
    }
  }
}
